/** The approximate search: probing the clusters nearest to the query and fetching their records by byte offset. */
module Ivf {
  import opened Bytes
  import opened RecordLog
  import opened Storage
  import opened PendingDelete
  import opened TopK
  import opened Rankwise
  import opened ResultSlots
  import opened FlatSearch
  import opened KMeans

  const FAR_SLOT := Ranked(FAR, 0)

  /** Every cluster as a probe candidate, in order. */
  function ProbeCandidates(clusters: seq<Cluster>, q: Query): (es: seq<Ranked>)
    ensures |es| == |clusters|
  {
    seq(|clusters|, i requires 0 <= i < |clusters| => Ranked(q.dist(clusters[i].centroid, q.vector), i))
  }

  /** The clusters that a search probes, nearest first. */
  function Probed(clusters: seq<Cluster>, q: Query, nprobe: nat): (best: seq<nat>)
    requires clusters != []
    ensures |best| == nprobe && InRange(best, |clusters|)
  {
    ProbedInRange(clusters, q, |clusters|, nprobe);
    var r := Ranking(ProbeCandidates(clusters, q)[..|clusters|], nprobe, FAR_SLOT);
    seq(nprobe, i requires 0 <= i < nprobe => r[i].index)
  }

  lemma {:induction false} ProbedInRange(clusters: seq<Cluster>, q: Query, n: nat, nprobe: nat)
    requires clusters != [] && n <= |clusters|
    ensures forall i :: 0 <= i < nprobe ==>
              Ranking(ProbeCandidates(clusters, q)[..n], nprobe, FAR_SLOT)[i].index < |clusters|
  {
    var es := ProbeCandidates(clusters, q)[..n];
    if n > 0 {
      ProbedInRange(clusters, q, n - 1, nprobe);
      assert es[..n - 1] == ProbeCandidates(clusters, q)[..n - 1];
    }
  }

  function GatherOffsets(clusters: seq<Cluster>, best: seq<nat>): seq<nat>
    requires InRange(best, |clusters|)
  {
    if best == [] then []
    else GatherOffsets(clusters, best[..|best| - 1]) + clusters[best[|best| - 1]].byteOffsets
  }

  /** Ranks the clusters in place in an array of `nprobe` slots and gathers the byte offsets of the best ones. */
  method IvfSearch(clusters: seq<Cluster>, q: Query, nprobe: nat) returns (offsets: seq<nat>)
    requires clusters != [] && nprobe >= 1
    ensures offsets == GatherOffsets(clusters, Probed(clusters, q, nprobe))
  {
    hide BoundedInsert, Ranking;
    var best := new Ranked[nprobe](_ => FAR_SLOT);
    ghost var es := ProbeCandidates(clusters, q);
    assert best[..] == Repeat(FAR_SLOT, nprobe);
    RankingStart(nprobe, FAR_SLOT);
    assert es[..0] == [];
    for i := 0 to |clusters|
      invariant best[..] == Ranking(es[..i], nprobe, FAR_SLOT)
    {
      var e := Ranked(q.dist(clusters[i].centroid, q.vector), i);
      assert es[..i + 1] == es[..i] + [e];
      RankingStep(es[..i], e, nprobe, FAR_SLOT);
      InsertCluster(best, e);
    }
    assert es[..|clusters|] == es;
    ProbedInRange(clusters, q, |clusters|, nprobe);
    ghost var probed := Probed(clusters, q, nprobe);
    offsets := [];
    for i := 0 to nprobe
      invariant best[..] == Ranking(es[..|clusters|], nprobe, FAR_SLOT)
      invariant offsets == GatherOffsets(clusters, probed[..i])
    {
      assert best[i].index == probed[i];
      assert probed[..i + 1][..i] == probed[..i];
      offsets := offsets + clusters[best[i].index].byteOffsets;
    }
    assert probed[..nprobe] == probed;
  }

  /** One cluster offered to the slots: it is moved forward past all that are farther, and the last one falls off. */
  method InsertCluster(best: array<Ranked>, e: Ranked)
    requires best.Length >= 1
    modifies best
    ensures best[..] == BoundedInsert(old(best[..]), e)
  {
    hide BoundedInsert, Spot;
    var nprobe := best.Length;
    ghost var before := best[..];
    if e.dist < best[nprobe - 1].dist {
      var p := nprobe - 1;
      while p > 0 && e.dist < best[p - 1].dist
        invariant 0 <= p <= nprobe - 1
        invariant forall j :: p <= j < nprobe ==> e.dist < before[j].dist
        invariant forall j :: 0 <= j <= p && j < nprobe - 1 ==> best[j] == before[j]
        invariant forall j :: p < j < nprobe ==> best[j] == before[j - 1]
      {
        best[p] := best[p - 1];
        p := p - 1;
      }
      best[p] := e;
      SpotIs(before, e.dist, p);
      InsertedIs(before, e, p, best[..]);
    } else {
      SpotIs(before, e.dist, nprobe);
      InsertedNot(before, e);
    }
  }

  lemma RankingStart(k: nat, sentinel: Ranked)
    ensures Ranking([], k, sentinel) == Repeat(sentinel, k)
  {
  }

  lemma RankingStep(es: seq<Ranked>, e: Ranked, k: nat, sentinel: Ranked)
    ensures Ranking(es + [e], k, sentinel) == BoundedInsert(Ranking(es, k, sentinel), e)
  {
    assert (es + [e])[..|es|] == es;
  }

  lemma InsertedIs(before: seq<Ranked>, e: Ranked, p: nat, after: seq<Ranked>)
    requires p < |before| == |after| && Spot(before, e.dist) == p
    requires after[p] == e
    requires forall j :: 0 <= j < p ==> after[j] == before[j]
    requires forall j :: p < j < |after| ==> after[j] == before[j - 1]
    ensures after == BoundedInsert(before, e)
  {
    forall r | 0 <= r < |after|
      ensures after[r] == BoundedInsert(before, e)[r]
    {
      InsertAt(before, e, r);
    }
  }

  lemma InsertedNot(before: seq<Ranked>, e: Ranked)
    requires Spot(before, e.dist) == |before|
    ensures BoundedInsert(before, e) == before
  {
  }

  // ---- fetching and ranking ----

  /** The candidate found by fetching at a byte offset, unless the fetch fails or the record is hidden. */
  function FetchedAt(view: seq<Byte>, dim: nat, q: Query): nat -> seq<Candidate> {
    (offset: nat) => match Decode(view, offset, dim)
      case None => []
      case Some(r) => if Visible(r, q).Some? then [Visible(r, q).value] else []
  }

  function Fetched(offsets: seq<nat>, view: seq<Byte>, dim: nat, q: Query): (cs: seq<Candidate>) {
    FlatMap(offsets, FetchedAt(view, dim, q))
  }

  method AnnSearch(store: Store, dim: nat, q: Query, nprobe: nat, clusters: seq<Cluster>,
                   out: array<SearchResult>, heap: CHeap) returns (rc: int)
    requires store.Valid() && Ascending(q.pending) && heap.Valid()
    requires clusters != [] && nprobe >= 1 && out.Length >= 1
    modifies out, heap
    ensures heap.Valid() && rc == 0
    ensures Held(out[..], heap.strings, heap.next)
         == HeldAfter(Fetched(GatherOffsets(clusters, Probed(clusters, q, nprobe)), store.View(), dim, q),
                      out.Length, old(heap.strings), old(heap.next))
  {
    hide Offered, HeldAfter, Visible, Decode, Probed, Fetched;
    var topK := out.Length;
    ClearSlots(out);
    ghost var strings, next := heap.strings, heap.next;
    NothingHeld(topK, strings, next);
    var offsets := IvfSearch(clusters, q, nprobe);
    ghost var view := store.View();
    assert offsets[..0] == [];
    NothingFetched(view, dim, q);
    for i := 0 to |offsets|
      invariant heap.Valid()
      invariant Held(out[..], heap.strings, heap.next) == HeldAfter(Fetched(offsets[..i], view, dim, q), topK, strings, next)
    {
      FetchedStep(offsets, view, dim, q, i);
      HeldSound(Fetched(offsets[..i], view, dim, q), topK, strings, next);
      var fetched := store.FetchByOffset(offsets[i], dim);
      if fetched.Some? {
        OfferVisible(fetched.value, q, out, heap);
        if Visible(fetched.value, q).Some? {
          HeldStep(Fetched(offsets[..i], view, dim, q), Visible(fetched.value, q).value, topK, strings, next);
        }
      }
    }
    assert offsets[..|offsets|] == offsets;
    return 0;
  }

  lemma NothingFetched(view: seq<Byte>, dim: nat, q: Query)
    ensures Fetched([], view, dim, q) == []
  {
  }

  lemma FetchedStep(offsets: seq<nat>, view: seq<Byte>, dim: nat, q: Query, i: nat)
    requires i < |offsets|
    ensures var d := Decode(view, offsets[i], dim);
            var before := Fetched(offsets[..i], view, dim, q);
            Fetched(offsets[..i + 1], view, dim, q)
            == if d.Some? && Visible(d.value, q).Some? then before + [Visible(d.value, q).value] else before
  {
    hide Decode, Visible;
    assert offsets[..i + 1][..i] == offsets[..i];
  }

  // ---- which clusters are probed ----

  predicate Distinct(s: seq<nat>) {
    forall i, j :: 0 <= i < j < |s| ==> s[i] != s[j]
  }

  function Upto(n: nat): (s: seq<nat>)
    ensures |s| == n
  {
    seq(n, i => i)
  }

  /** How many clusters are nearer to the query than FAR. */
  function InReach(clusters: seq<Cluster>, q: Query): nat {
    |Below(ProbeCandidates(clusters, q), FAR)|
  }

  lemma {:induction false} BelowProbes(clusters: seq<Cluster>, q: Query, n: nat)
    requires n <= |clusters|
    ensures var es := ProbeCandidates(clusters, q); var b := Below(es[..n], FAR);
            && Ordered(b)
            && (forall i :: 0 <= i < |b| ==> b[i].index < n && b[i] == es[b[i].index] && b[i].dist < FAR)
            && (n > 0 && es[0].dist < FAR ==> b != [] && b[0] == es[0])
  {
    hide Below;
    var es := ProbeCandidates(clusters, q);
    if n == 0 {
      NoneBelow(es);
    } else {
      BelowProbes(clusters, q, n - 1);
      BelowStep(es, n);
      if es[n - 1].dist < FAR {
        OneMore(Below(es[..n - 1], FAR), es, n);
      }
    }
  }

  /** One more candidate in reach. */
  lemma OneMore(front: seq<Ranked>, es: seq<Ranked>, n: nat)
    requires 0 < n <= |es| && es[n - 1].index == n - 1 && es[n - 1].dist < FAR && Ordered(front)
    requires forall i :: 0 <= i < |front| ==> front[i].index < n - 1 && front[i] == es[front[i].index] && front[i].dist < FAR
    ensures var b := front + [es[n - 1]];
            Ordered(b) && forall i :: 0 <= i < |b| ==> b[i].index < n && b[i] == es[b[i].index] && b[i].dist < FAR
    ensures n == 1 ==> front == []
  {
    assert front == [] || front[0].index < n - 1;
  }

  lemma NoneBelow(es: seq<Ranked>)
    ensures Below(es[..0], FAR) == []
  {
  }

  lemma BelowStep(es: seq<Ranked>, n: nat)
    requires 0 < n <= |es|
    ensures Below(es[..n], FAR)
         == if es[n - 1].dist < FAR then Below(es[..n - 1], FAR) + [es[n - 1]] else Below(es[..n - 1], FAR)
  {
    assert es[..n][..n - 1] == es[..n - 1];
  }

  /** What the probe order consists of: the clusters in reach, sorted strictly, then cluster 0 over and over. */
  lemma ProbedShape(clusters: seq<Cluster>, q: Query, nprobe: nat)
    requires clusters != []
    ensures var sorted := StableSort(Below(ProbeCandidates(clusters, q), FAR)); var best := Probed(clusters, q, nprobe);
            && |sorted| == InReach(clusters, q) && StrictlyRanked(sorted)
            && (forall i :: 0 <= i < nprobe ==> best[i] == if i < |sorted| then sorted[i].index else 0)
            && (forall i :: 0 <= i < |sorted| ==>
                  sorted[i].index < |clusters| && sorted[i] == ProbeCandidates(clusters, q)[sorted[i].index]
                  && sorted[i].dist < FAR)
  {
    var es := ProbeCandidates(clusters, q);
    var b := Below(es, FAR);
    assert es[..|clusters|] == es;
    BelowProbes(clusters, q, |clusters|);
    StableSortIsStable(b);
    StableSortSorts(b);
    var sorted := StableSort(b);
    forall i | 0 <= i < nprobe
      ensures Probed(clusters, q, nprobe)[i] == if i < |sorted| then sorted[i].index else 0
    {
      RankingAt(es, nprobe, FAR_SLOT, i);
    }
    forall i | 0 <= i < |sorted|
      ensures sorted[i].index < |clusters| && sorted[i] == es[sorted[i].index] && sorted[i].dist < FAR
    {
      assert sorted[i] in multiset(sorted);
      assert sorted[i] in multiset(b);
      var t :| 0 <= t < |b| && b[t] == sorted[i];
    }
  }

  lemma ZeroInReach(clusters: seq<Cluster>, q: Query)
    requires clusters != []
    ensures ProbeCandidates(clusters, q)[0].dist < FAR <==>
              exists i :: 0 <= i < InReach(clusters, q)
                && StableSort(Below(ProbeCandidates(clusters, q), FAR))[i].index == 0
  {
    var es := ProbeCandidates(clusters, q);
    var b := Below(es, FAR);
    var sorted := StableSort(b);
    assert es[..|clusters|] == es;
    BelowProbes(clusters, q, |clusters|);
    ProbedShape(clusters, q, 1);
    hide StableSort, Below;
    if es[0].dist < FAR {
      SortHolds(b, 0);
    }
  }

  /** Exactly when the probed clusters are pairwise distinct: there must be enough clusters in reach, or just one short
      while the padding cluster 0 is itself out of reach. */
  lemma ProbedDistinctIff(clusters: seq<Cluster>, q: Query, nprobe: nat)
    requires clusters != [] && nprobe >= 1
    ensures Distinct(Probed(clusters, q, nprobe)) <==>
              || nprobe <= InReach(clusters, q)
              || (nprobe == InReach(clusters, q) + 1 && q.dist(clusters[0].centroid, q.vector) >= FAR)
  {
    hide Probed, StableSort, Below, InReach;
    var sorted := StableSort(Below(ProbeCandidates(clusters, q), FAR));
    var best, m := Probed(clusters, q, nprobe), InReach(clusters, q);
    ProbedShape(clusters, q, nprobe);
    ZeroInReach(clusters, q);
    forall i, j | 0 <= i < j < m
      ensures sorted[i].index != sorted[j].index
    {
      assert Before(sorted[i], sorted[j]);
    }
    if nprobe > m + 1 {
      assert best[m] == 0 && best[m + 1] == 0;
    } else if nprobe == m + 1 && q.dist(clusters[0].centroid, q.vector) < FAR {
      var i :| 0 <= i < m && sorted[i].index == 0;
      assert best[i] == 0 && best[m] == 0;
    }
  }

  /** Two probes of an index of one cluster visit it twice. */
  lemma RepeatWitness(c: Cluster, q: Query)
    requires q.dist(c.centroid, q.vector) < FAR
    ensures !Distinct(Probed([c], q, 2))
  {
    hide Probed, Distinct;
    var es := ProbeCandidates([c], q);
    assert es[..0] == [] && es == [es[0]];
    ProbedDistinctIff([c], q, 2);
  }

  /** With every centroid in reach and no more probes than clusters, the probed clusters are the nearest ones, each
      once. */
  lemma ProbedNearest(clusters: seq<Cluster>, q: Query, nprobe: nat)
    requires clusters != [] && 1 <= nprobe <= |clusters|
    requires forall i :: 0 <= i < |clusters| ==> q.dist(clusters[i].centroid, q.vector) < FAR
    ensures Distinct(Probed(clusters, q, nprobe))
    ensures forall i, c :: 0 <= i < nprobe && 0 <= c < |clusters| && c !in Probed(clusters, q, nprobe) ==>
              q.dist(clusters[Probed(clusters, q, nprobe)[i]].centroid, q.vector) <= q.dist(clusters[c].centroid, q.vector)
  {
    hide Probed, StableSort, Below, InReach, Distinct;
    AllInReach(clusters, q);
    ProbedDistinctIff(clusters, q, nprobe);
    forall i, c | 0 <= i < nprobe && 0 <= c < |clusters| && c !in Probed(clusters, q, nprobe)
      ensures q.dist(clusters[Probed(clusters, q, nprobe)[i]].centroid, q.vector) <= q.dist(clusters[c].centroid, q.vector)
    {
      UnprobedIsFarther(clusters, q, nprobe, i, c);
    }
  }

  lemma AllInReach(clusters: seq<Cluster>, q: Query)
    requires forall i :: 0 <= i < |clusters| ==> q.dist(clusters[i].centroid, q.vector) < FAR
    ensures InReach(clusters, q) == |clusters|
  {
    hide Below;
    BelowKeepsAll(ProbeCandidates(clusters, q), FAR);
  }

  lemma UnprobedIsFarther(clusters: seq<Cluster>, q: Query, nprobe: nat, i: nat, c: nat)
    requires i < nprobe <= |clusters| && c < |clusters| && c !in Probed(clusters, q, nprobe)
    requires forall i :: 0 <= i < |clusters| ==> q.dist(clusters[i].centroid, q.vector) < FAR
    ensures q.dist(clusters[Probed(clusters, q, nprobe)[i]].centroid, q.vector) <= q.dist(clusters[c].centroid, q.vector)
  {
    hide Probed, StableSort, Below, InReach;
    var es := ProbeCandidates(clusters, q);
    var sorted := StableSort(Below(es, FAR));
    var best := Probed(clusters, q, nprobe);
    AllInReach(clusters, q);
    ProbedShape(clusters, q, nprobe);
    StableSortSorts(Below(es, FAR));
    AllInReachSorted(clusters, q, c);
    var t :| 0 <= t < |sorted| && sorted[t] == es[c];
    NotProbedIsLater(best, sorted, t, c);
    assert sorted[i].dist <= sorted[t].dist;
  }

  lemma NotProbedIsLater(best: seq<nat>, sorted: seq<Ranked>, t: nat, c: nat)
    requires |best| <= |sorted| && t < |sorted| && sorted[t].index == c && c !in best
    requires forall i :: 0 <= i < |best| ==> best[i] == sorted[i].index
    ensures t >= |best|
  {
  }

  lemma AllInReachSorted(clusters: seq<Cluster>, q: Query, c: nat)
    requires c < |clusters|
    requires forall i :: 0 <= i < |clusters| ==> q.dist(clusters[i].centroid, q.vector) < FAR
    ensures var sorted := StableSort(Below(ProbeCandidates(clusters, q), FAR));
            exists t :: 0 <= t < |sorted| && sorted[t] == ProbeCandidates(clusters, q)[c]
  {
    var es := ProbeCandidates(clusters, q);
    BelowKeepsAll(es, FAR);
    SortHolds(es, c);
  }

  lemma SortHolds(es: seq<Ranked>, c: nat)
    requires c < |es|
    ensures exists t :: 0 <= t < |es| && StableSort(es)[t] == es[c]
  {
    StableSortSorts(es);
    hide StableSort;
    assert es[c] in multiset(es);
    assert es[c] in multiset(StableSort(es));
  }

  lemma {:induction false} BelowKeepsAll(es: seq<Ranked>, limit: real)
    requires forall i :: 0 <= i < |es| ==> es[i].dist < limit
    ensures Below(es, limit) == es
  {
    if es != [] {
      BelowKeepsAll(es[..|es| - 1], limit);
    }
  }
}
