/** Searching a table that the server is working on. */
module LiveSearch {
  import opened Bytes
  import opened RecordLog
  import opened RamTable
  import opened TableProtocol
  import opened Distance
  import opened ResultSlots
  import opened TopK
  import opened Rankwise
  import opened BatchDelete
  import opened FlatSearch

  lemma {:induction false} ScanAgrees(records: seq<RamRecord>, log: seq<Record>, view: Mapping, dim: nat, q: Query)
    requires |records| == |log|
    requires forall i :: 0 <= i < |log| ==> records[i].id == log[i].id && records[i].deleted == log[i].deleted
    requires forall i :: 0 <= i < |log| && !records[i].deleted ==>
               RecordReadable(records[i], view, dim) && Stored(records[i], view, dim) == log[i]
    ensures SearchReads(records, view, dim, q) && ScanArray(records, view, dim, q) == Scan(log, q)
  {
    hide Floats, MetaFits;
    if records == [] {
      NothingScanned(q);
    } else {
      var n := |records| - 1;
      ScanAgrees(records[..n], log[..n], view, dim, q);
      assert log[..n + 1] == log;
      ScanStep(log, q, n);
      VisibleWhen(log[n], q);
    }
  }

  lemma LiveReads(s: State, log: seq<Record>, dim: nat)
    requires Inv(s, log, dim) && PointersValid(s, LiveRecords, dim)
    ensures |s.records| <= |log|
    ensures forall i :: 0 <= i < |s.records| && !s.records[i].deleted ==>
              RecordReadable(s.records[i], ViewOf(s), dim) && Stored(s.records[i], ViewOf(s), dim) == log[i]
  {
    hide EncodeAll, Offset, RecordReadable;
    var all := s.records + s.queue;
    ArrayAgreesWithLog(s, log, dim);
    PointersValidWhenCurrent(s, log, LiveRecords, dim);
    forall i | 0 <= i < |s.records| && !s.records[i].deleted
      ensures RecordReadable(s.records[i], ViewOf(s), dim) && Stored(s.records[i], ViewOf(s), dim) == log[i]
    {
      assert all[i] == s.records[i];
      MirrorReads(all, log, s.file, s.mapped, s.generation, dim, i);
    }
  }

  /** In a state of the protocol whose live vectors can be read, scanning the array, or the records that it began with, is
      scanning that part of the log. */
  lemma SearchSeesLog(s: State, log: seq<Record>, dim: nat, q: Query, n: nat)
    requires Inv(s, log, dim) && PointersValid(s, LiveRecords, dim) && n <= |s.records|
    ensures |s.records| <= |log| && SearchReads(s.records[..n], ViewOf(s), dim, q)
    ensures ScanArray(s.records[..n], ViewOf(s), dim, q) == Scan(log[..n], q)
  {
    hide EncodeAll, Offset, RecordReadable, Scan, ScanArray;
    ArrayAgreesWithLog(s, log, dim);
    LiveReads(s, log, dim);
    ScanAgrees(s.records[..n], log[..n], ViewOf(s), dim, q);
  }

  /** Every search of every run scans exactly the drained part of the log that the specification has reached. */
  lemma EverySearchSeesLog(states: seq<State>, actions: seq<Action>, log: seq<Record>, dim: nat, i: nat, q: Query)
    requires IsRun(states, actions, dim) && Inv(states[0], log, dim)
    requires i < |actions| && actions[i] == Search
    ensures var s, reached := states[i], LogAfter(states, actions, log, dim, i);
            && s.mapped <= |s.file| && |s.records| <= |reached| && SearchReads(s.records, ViewOf(s), dim, q)
            && ScanArray(s.records, ViewOf(s), dim, q) == Scan(reached[..|s.records|], q)
  {
    hide Inv, Apply, Scan, ScanArray, LogAfter, PointersValid;
    RunRefines(states, actions, log, dim, i);
    assert Next(states[i], actions[i], states[i + 1], dim);
    var s := states[i];
    SearchSeesLog(s, LogAfter(states, actions, log, dim, i), dim, q, |s.records|);
    assert s.records[..|s.records|] == s.records;
  }

  lemma {:induction false} EntryIsOffered(records: seq<RamRecord>, view: Mapping, dim: nat, q: Query, k: nat)
    requires SearchReads(records, view, dim, q) && k < |records|
    requires !records[k].deleted && records[k].id !in q.pending
    ensures Candidate(q.dist(Values(Floats(records[k].vector, view, dim)), q.vector), records[k].id, records[k].metadata)
         in ScanArray(records, view, dim, q)
  {
    hide Floats, Readable;
    var n := |records| - 1;
    if k < n {
      EntryIsOffered(records[..n], view, dim, q, k);
    }
  }

  /** A search that runs after the drain which followed an acknowledged insert offers that insert, at the distance of the
      vector it was sent with, unless its id was deleted after that drain or is waiting for deletion. */
  lemma SearchFindsInsert(states: seq<State>, actions: seq<Action>, dim: nat, i: nat, j: nat, m: nat, q: Query)
    requires IsRun(states, actions, dim) && i < j < m < |actions| && actions[m] == Search
    requires actions[i].Insert? && |actions[i].vector| == dim
    requires actions[j] == Drain && forall t :: i < t < j ==> actions[t] != Drain
    requires (forall t :: j < t < m ==> actions[t] != Delete(actions[i].id)) && actions[i].id !in q.pending
    ensures var s := states[m];
            && s.mapped <= |s.file| && SearchReads(s.records, ViewOf(s), dim, q)
            && Candidate(q.dist(Values(actions[i].vector), q.vector), actions[i].id, actions[i].metadata)
               in ScanArray(s.records, ViewOf(s), dim, q)
  {
    hide ScanArray, Apply;
    AcknowledgedInsertStays(states, actions, dim, i, j, m);
    assert Next(states[m], actions[m], states[m + 1], dim);
    var s, e := states[m], EntryOf(states[i], actions[i]);
    var k :| 0 <= k < |s.records| && s.records[k] == e;
    EntryIsOffered(s.records, ViewOf(s), dim, q, k);
  }

  // ---- what the slots of a search say ----

  /** Every candidate is a record of the array that is neither deleted nor waiting for deletion, at the distance of its
      vector. */
  lemma {:induction false} OfferIsRecord(records: seq<RamRecord>, view: Mapping, dim: nat, q: Query, c: nat)
    returns (i: nat)
    requires SearchReads(records, view, dim, q) && c < |ScanArray(records, view, dim, q)|
    ensures i < |records| && !records[i].deleted && records[i].id !in q.pending
    ensures ScanArray(records, view, dim, q)[c]
         == Candidate(q.dist(Values(Floats(records[i].vector, view, dim)), q.vector), records[i].id, records[i].metadata)
  {
    hide Floats, Readable;
    var n := |records| - 1;
    var front := ScanArray(records[..n], view, dim, q);
    if c < |front| {
      i := OfferIsRecord(records[..n], view, dim, q, c);
    } else {
      i := n;
    }
  }

  function CandidateIds(cs: seq<Candidate>): (ids: seq<nat>)
    ensures |ids| == |cs|
  {
    seq(|cs|, i requires 0 <= i < |cs| => cs[i].id)
  }

  /** Every live id is offered as often as it is there, and none that waits for deletion. */
  lemma {:induction false} OffersAreLiveIds(records: seq<RamRecord>, view: Mapping, dim: nat, q: Query, id: Word64)
    requires SearchReads(records, view, dim, q)
    ensures multiset(CandidateIds(ScanArray(records, view, dim, q)))[id]
         == if id in q.pending then 0 else LiveIds(records)[id]
  {
    hide Floats, Readable;
    if records != [] {
      hide LiveIds, Offers;
      var n := |records| - 1;
      var front, last := ScanArray(records[..n], view, dim, q), Offers(records[n], view, dim, q);
      OffersAreLiveIds(records[..n], view, dim, q, id);
      LiveIdsSplit(records, n);
      assert records[n..] == [records[n]];
      assert CandidateIds(front + last) == CandidateIds(front) + CandidateIds(last);
      OneOffer(records[n], view, dim, q, id);
    } else {
      assert CandidateIds([]) == [];
    }
  }

  lemma OneOffer(r: RamRecord, view: Mapping, dim: nat, q: Query, id: Word64)
    requires !r.deleted && r.id !in q.pending ==> Readable(r.vector, view, dim)
    ensures multiset(CandidateIds(Offers(r, view, dim, q)))[id] == if id in q.pending then 0 else LiveIds([r])[id]
  {
    hide Floats, Readable;
    assert [r][1..] == [];
    var offers := Offers(r, view, dim, q);
    assert CandidateIds(offers) == if r.deleted || r.id in q.pending then [] else [r.id];
  }

  /** Every slot of a search is empty, with the number 0 and the largest float for its distance, or shows a record that is
      neither deleted nor waiting for deletion: its id, the distance of its vector, and a copy of its metadata. */
  lemma SlotIsRecord(records: seq<RamRecord>, view: Mapping, dim: nat, q: Query, k: nat, strings: map<nat, seq<Byte>>,
                     next: nat, r: nat)
    requires SearchReads(records, view, dim, q) && r < k && forall x :: x in strings ==> x < next
    ensures var h := HeldAfter(ScanArray(records, view, dim, q), k, strings, next); var s := h.slots[r];
            || s == SearchResult(0, 340282346638528859811704183484516925440.0, None)
            || exists i: nat :: i < |records| && SlotShows(s, records[i], h.strings, view, dim, q)
  {
    hide Ranking, ScanArray, HeldAfter;
    var cs := ScanArray(records, view, dim, q);
    var h := HeldAfter(cs, k, strings, next);
    SlotsShowRanking(cs, k, strings, next);
    var e := Ranking(RankedOf(cs), k, SENTINEL)[r];
    assert Shows(h.slots[r], e, cs, h.strings);
    RankedIsOffered(cs, k, r);
    if e.dist < FLT_MAX {
      var i := OfferIsRecord(records, view, dim, q, e.index);
      assert SlotShows(h.slots[r], records[i], h.strings, view, dim, q);
    }
  }

  predicate SlotShows(s: SearchResult, record: RamRecord, strings: map<nat, seq<Byte>>, view: Mapping, dim: nat, q: Query) {
    && !record.deleted && record.id !in q.pending && Readable(record.vector, view, dim)
    && s.id == record.id && s.distance == q.dist(Values(Floats(record.vector, view, dim)), q.vector)
    && match record.metadata
       case None => s.metadata == None
       case Some(m) => s.metadata.Some? && s.metadata.value in strings && strings[s.metadata.value] == m
  }

  /** A rank that is not empty holds a candidate at its own distance. */
  lemma RankedIsOffered(cs: seq<Candidate>, k: nat, r: nat)
    requires r < k
    ensures var e := Ranking(RankedOf(cs), k, SENTINEL)[r];
            e.dist < FLT_MAX ==> e.index < |cs| && e.dist == cs[e.index].dis
  {
    hide Ranking, StableSort, Below;
    RankingAt(RankedOf(cs), k, SENTINEL, r);
    var below := Below(RankedOf(cs), FLT_MAX);
    BelowOrdered(cs, |cs|, FLT_MAX);
    assert RankedOf(cs)[..|cs|] == RankedOf(cs);
    StableSortSorts(below);
    var sorted := StableSort(below);
    if r < |sorted| {
      assert sorted[r] in multiset(sorted);
      assert sorted[r] in below;
    }
  }
}
