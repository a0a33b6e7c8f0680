/** Exact search: one pass over the record array. */
module FlatSearch {
  import opened Bytes
  import opened RecordLog
  import opened RamTable
  import opened PendingDelete
  import opened Distance
  import opened TopK
  import opened Rankwise
  import opened ResultSlots

  /** What a search looks for and what it hides. */
  datatype Query = Query(vector: seq<real>, dist: Metric, pending: seq<Word64>)

  /** A stored record as a search candidate, unless it is deleted or waiting for deletion. */
  function Visible(r: Record, q: Query): Option<Candidate> {
    if r.deleted || r.id in q.pending then None
    else Some(Candidate(q.dist(Values(r.vector), q.vector), r.id, r.metadata))
  }

  function VisibleTo(q: Query): Record -> seq<Candidate> {
    (r: Record) => if Visible(r, q).Some? then [Visible(r, q).value] else []
  }

  /** The candidates that a scan of `log` offers, in order. */
  function Scan(log: seq<Record>, q: Query): (cs: seq<Candidate>) {
    FlatMap(log, VisibleTo(q))
  }

  /** Offers one record, unless it is deleted or pending deletion. */
  method OfferVisible(r: Record, q: Query, out: array<SearchResult>, heap: CHeap)
    requires out.Length > 0 && heap.Valid() && Ascending(q.pending)
    requires out[out.Length - 1].metadata.Some? ==> out[out.Length - 1].metadata.value in heap.strings
    modifies out, heap
    ensures heap.Valid()
    ensures Held(out[..], heap.strings, heap.next)
         == match Visible(r, q)
            case None => old(Held(out[..], heap.strings, heap.next))
            case Some(c) => Offered(old(Held(out[..], heap.strings, heap.next)), c)
  {
    hide Offered, Visible;
    VisibleWhen(r, q);
    if r.deleted {
      return;
    }
    var pending := IsPendingDelete(r.id, q.pending);
    if pending {
      return;
    }
    Offer(out, heap, q.dist(Values(r.vector), q.vector), r.id, r.metadata);
  }

  // ---- the scan over the record array ----

  /** The vectors that a search follows lead to floats: those of the records that it does not skip. */
  predicate SearchReads(records: seq<RamRecord>, view: Mapping, dim: nat, q: Query) {
    forall i :: 0 <= i < |records| && !records[i].deleted && records[i].id !in q.pending ==>
      Readable(records[i].vector, view, dim)
  }

  /** A record of the array as a search candidate, unless it is deleted or waiting for deletion. */
  function Offers(r: RamRecord, view: Mapping, dim: nat, q: Query): seq<Candidate>
    requires !r.deleted && r.id !in q.pending ==> Readable(r.vector, view, dim)
  {
    if r.deleted || r.id in q.pending then []
    else [Candidate(q.dist(Values(Floats(r.vector, view, dim)), q.vector), r.id, r.metadata)]
  }

  /** The candidates that the array offers, in order. */
  function ScanArray(records: seq<RamRecord>, view: Mapping, dim: nat, q: Query): seq<Candidate>
    requires SearchReads(records, view, dim, q)
  {
    if records == [] then []
    else ScanArray(records[..|records| - 1], view, dim, q) + Offers(records[|records| - 1], view, dim, q)
  }

  lemma ScanArrayStep(records: seq<RamRecord>, view: Mapping, dim: nat, q: Query, i: nat)
    requires i < |records| && SearchReads(records, view, dim, q)
    ensures ScanArray(records[..i + 1], view, dim, q)
         == ScanArray(records[..i], view, dim, q) + Offers(records[i], view, dim, q)
  {
    hide Offers, Readable;
    assert records[..i + 1][..i] == records[..i];
  }

  lemma NothingOffered(view: Mapping, dim: nat, q: Query)
    ensures ScanArray([], view, dim, q) == []
  {
  }

  /** Scans all records and keeps the `topK` nearest visible ones in `out`, each with its own copy of the metadata. */
  method FlatSearch(records: seq<RamRecord>, view: Mapping, dim: nat, q: Query, out: array<SearchResult>, heap: CHeap)
    returns (rc: int)
    requires SearchReads(records, view, dim, q) && Ascending(q.pending) && heap.Valid()
    modifies out, heap
    ensures heap.Valid()
    ensures rc == (if out.Length == 0 then -1 else 0)
    ensures out.Length == 0 ==> unchanged(heap)
    ensures out.Length > 0 ==>
              Held(out[..], heap.strings, heap.next)
              == HeldAfter(ScanArray(records, view, dim, q), out.Length, old(heap.strings), old(heap.next))
    ensures out.Length > 0 ==>
              IsSearchResult(Held(out[..], heap.strings, heap.next), ScanArray(records, view, dim, q), old(heap.next))
  {
    hide Offered, HeldAfter, Readable, ScanArray, Floats, IsSearchResult;
    var topK := out.Length;
    if topK == 0 {
      return -1;
    }
    ClearSlots(out);
    ghost var strings, next := heap.strings, heap.next;
    assert records[..0] == [];
    NothingOffered(view, dim, q);
    NothingHeld(topK, strings, next);
    for i := 0 to |records|
      invariant heap.Valid()
      invariant Held(out[..], heap.strings, heap.next)
             == HeldAfter(ScanArray(records[..i], view, dim, q), topK, strings, next)
    {
      ScanArrayStep(records, view, dim, q, i);
      ghost var before := ScanArray(records[..i], view, dim, q);
      assert before + [] == before;
      HeldSound(before, topK, strings, next);
      if !records[i].deleted {
        var pending := IsPendingDelete(records[i].id, q.pending);
        if !pending {
          var dis := q.dist(Values(Floats(records[i].vector, view, dim)), q.vector);
          HeldStep(before, Candidate(dis, records[i].id, records[i].metadata), topK, strings, next);
          Offer(out, heap, dis, records[i].id, records[i].metadata);
        }
      }
    }
    assert records[..|records|] == records;
    FlatSearchRefinesSort(ScanArray(records, view, dim, q), topK, strings, next);
    return 0;
  }

  lemma VisibleWhen(r: Record, q: Query)
    ensures Visible(r, q) == if r.deleted || r.id in q.pending then None
                             else Some(Candidate(q.dist(Values(r.vector), q.vector), r.id, r.metadata))
  {
  }

  lemma NothingScanned(q: Query)
    ensures Scan([], q) == []
  {
  }

  lemma ScanStep(log: seq<Record>, q: Query, i: nat)
    requires i < |log|
    ensures Visible(log[i], q).None? ==> Scan(log[..i + 1], q) == Scan(log[..i], q)
    ensures Visible(log[i], q).Some? ==> Scan(log[..i + 1], q) == Scan(log[..i], q) + [Visible(log[i], q).value]
  {
    assert log[..i + 1][..i] == log[..i];
  }

  // ---- what the search returns ----

  /** The result of a search over some candidates: rank `r` shows the candidate that comes `r`-th in the stable sort by
      distance of those nearer than FLT_MAX, and the ranks beyond them are empty. Every metadata copy is live, owned by one
      slot, and equal to the record's. */
  ghost predicate IsSearchResult(h: Held, cs: seq<Candidate>, start: nat) {
    var sorted := StableSort(Below(RankedOf(cs), FLT_MAX));
    && Owned(h.slots, h.strings, start)
    && forall r :: 0 <= r < |h.slots| ==>
         Shows(h.slots[r], if r < |sorted| then sorted[r] else SENTINEL, cs, h.strings)
  }

  /** Exact search refines sorting: the slots are the first ranks of the stable sort, padded. */
  lemma FlatSearchRefinesSort(cs: seq<Candidate>, k: nat, strings: map<nat, seq<Byte>>, next: nat)
    requires forall x :: x in strings ==> x < next
    ensures IsSearchResult(HeldAfter(cs, k, strings, next), cs, next)
  {
    hide Shows, Owned, StableSort, Ranking, Below, HeldAfter;
    HeldSound(cs, k, strings, next);
    SlotsShowRanking(cs, k, strings, next);
    forall r | 0 <= r < k
      ensures var sorted := StableSort(Below(RankedOf(cs), FLT_MAX));
              Ranking(RankedOf(cs), k, SENTINEL)[r] == if r < |sorted| then sorted[r] else SENTINEL
    {
      RankingAt(RankedOf(cs), k, SENTINEL, r);
    }
  }

  lemma {:induction false} BelowOrdered(cs: seq<Candidate>, n: nat, limit: real)
    requires n <= |cs|
    ensures Ordered(Below(RankedOf(cs)[..n], limit))
    ensures forall i :: 0 <= i < |Below(RankedOf(cs)[..n], limit)| ==>
              var e := Below(RankedOf(cs)[..n], limit)[i]; e.index < n && e == RankedOf(cs)[e.index]
  {
    if n > 0 {
      BelowOrdered(cs, n - 1, limit);
      assert RankedOf(cs)[..n][..n - 1] == RankedOf(cs)[..n - 1];
    }
  }

  /** The sort that the slots follow is strict: nearer first, and among equals the record that comes first in the array. */
  lemma SortedCandidatesAreStrict(cs: seq<Candidate>)
    ensures StrictlyRanked(StableSort(Below(RankedOf(cs), FLT_MAX)))
    ensures multiset(StableSort(Below(RankedOf(cs), FLT_MAX))) == multiset(Below(RankedOf(cs), FLT_MAX))
  {
    BelowOrdered(cs, |cs|, FLT_MAX);
    assert RankedOf(cs)[..|cs|] == RankedOf(cs);
    StableSortIsStable(Below(RankedOf(cs), FLT_MAX));
    StableSortSorts(Below(RankedOf(cs), FLT_MAX));
  }
}
