/** Executing a queue of deletions against the record array: what is conserved. */
module BatchDelete {
  import opened Bytes
  import opened RamTable

  /** One deletion: the first live record with the id is marked, if there is one. */
  function DeleteFirst(rs: seq<RamRecord>, id: Word64): (out: seq<RamRecord>)
    ensures |out| == |rs|
  {
    var i := FirstLive(rs, id);
    if i < |rs| then rs[i := rs[i].(deleted := true)] else rs
  }

  function DeleteQueued(rs: seq<RamRecord>, ids: seq<Word64>): (out: seq<RamRecord>)
    ensures |out| == |rs|
  {
    if ids == [] then rs else DeleteFirst(DeleteQueued(rs, ids[..|ids| - 1]), ids[|ids| - 1])
  }

  /** How many of the queued deletions found a live record. */
  function Executed(rs: seq<RamRecord>, ids: seq<Word64>): (n: nat)
    ensures n <= |ids|
  {
    if ids == [] then 0
    else
      var before := DeleteQueued(rs, ids[..|ids| - 1]);
      Executed(rs, ids[..|ids| - 1]) + (if FirstLive(before, ids[|ids| - 1]) < |before| then 1 else 0)
  }

  function LiveIds(rs: seq<RamRecord>): multiset<Word64> {
    if rs == [] then multiset{}
    else (if rs[0].deleted then multiset{} else multiset{rs[0].id}) + LiveIds(rs[1..])
  }

  lemma {:induction false} LiveIdsSplit(rs: seq<RamRecord>, i: nat)
    requires i <= |rs|
    ensures LiveIds(rs) == LiveIds(rs[..i]) + LiveIds(rs[i..])
  {
    if i > 0 {
      LiveIdsSplit(rs[1..], i - 1);
      assert rs[..i][1..] == rs[1..][..i - 1];
    }
  }

  lemma {:induction false} LiveIdAbsent(rs: seq<RamRecord>, id: Word64)
    requires forall j :: 0 <= j < |rs| ==> rs[j].id != id || rs[j].deleted
    ensures LiveIds(rs)[id] == 0
  {
    if rs != [] {
      LiveIdAbsent(rs[1..], id);
    }
  }

  /** One deletion takes one occurrence of the id, or nothing when no live record carries it. */
  lemma DeleteFirstTakesOne(rs: seq<RamRecord>, id: Word64)
    ensures LiveIds(DeleteFirst(rs, id)) == LiveIds(rs) - multiset{id}
    ensures FirstLive(rs, id) < |rs| <==> id in LiveIds(rs)
  {
    var i := FirstLive(rs, id);
    if i < |rs| {
      var rs' := DeleteFirst(rs, id);
      LiveIdsSplit(rs, i);
      LiveIdsSplit(rs', i);
      assert rs'[..i] == rs[..i];
      assert rs'[i..][1..] == rs[i..][1..];
    } else {
      LiveIdAbsent(rs, id);
    }
  }

  lemma IntersectionGrows(a: multiset<Word64>, q: multiset<Word64>, x: Word64)
    ensures a - q - multiset{x} == a - (q + multiset{x})
    ensures |a * (q + multiset{x})| == |a * q| + (if x in a - q then 1 else 0)
  {
    if x in a - q {
      assert a * (q + multiset{x}) == a * q + multiset{x};
    } else {
      assert a * (q + multiset{x}) == a * q;
    }
  }

  lemma QueueStep(rs: seq<RamRecord>, ids: seq<Word64>)
    requires ids != []
    ensures var front, last := ids[..|ids| - 1], ids[|ids| - 1]; var before := DeleteQueued(rs, front);
            && DeleteQueued(rs, ids) == DeleteFirst(before, last)
            && Executed(rs, ids) == Executed(rs, front) + (if FirstLive(before, last) < |before| then 1 else 0)
            && multiset(ids) == multiset(front) + multiset{last}
  {
    hide DeleteFirst;
    assert ids == ids[..|ids| - 1] + [ids[|ids| - 1]];
  }

  /** Running the whole queue removes exactly the queued ids, each as often as it is queued and present, and the number
      of successes is the size of what the queue and the live ids have in common. */
  lemma {:induction false} BatchConservation(rs: seq<RamRecord>, ids: seq<Word64>)
    ensures LiveIds(DeleteQueued(rs, ids)) == LiveIds(rs) - multiset(ids)
    ensures Executed(rs, ids) == |LiveIds(rs) * multiset(ids)|
  {
    hide LiveIds, DeleteFirst;
    var all := LiveIds(rs);
    if ids == [] {
      assert all * multiset(ids) == multiset{};
    } else {
      hide DeleteQueued, Executed;
      var front, last := ids[..|ids| - 1], ids[|ids| - 1];
      BatchConservation(rs, front);
      QueueStep(rs, ids);
      DeleteFirstTakesOne(DeleteQueued(rs, front), last);
      IntersectionGrows(all, multiset(front), last);
    }
  }

  /** Records other than the marked ones are untouched, and a marked one changes in its flag only. */
  lemma {:induction false} BatchTouchesFlagsOnly(rs: seq<RamRecord>, ids: seq<Word64>, i: nat)
    requires i < |rs|
    ensures var r := DeleteQueued(rs, ids)[i]; r == rs[i] || (r == rs[i].(deleted := true) && rs[i].id in ids)
  {
    if ids != [] {
      BatchTouchesFlagsOnly(rs, ids[..|ids| - 1], i);
    }
  }

  // ---- order through compaction ----

  function LiveIndices(rs: seq<RamRecord>): seq<nat> {
    if rs == [] then []
    else LiveIndices(rs[..|rs| - 1]) + (if rs[|rs| - 1].deleted then [] else [|rs| - 1])
  }

  /** Compaction keeps the live records in their order: they are the subsequence at the live indices. */
  lemma {:induction false} SurvivorsKeepOrder(rs: seq<RamRecord>)
    ensures var at := LiveIndices(rs);
            && |at| == |LiveOnly(rs)|
            && (forall i :: 0 <= i < |at| ==> at[i] < |rs| && LiveOnly(rs)[i] == rs[at[i]] && !rs[at[i]].deleted)
            && (forall i, j :: 0 <= i < j < |at| ==> at[i] < at[j])
  {
    if rs != [] {
      SurvivorsKeepOrder(rs[..|rs| - 1]);
    }
  }

  lemma {:induction false} SurvivorIds(rs: seq<RamRecord>)
    ensures LiveIds(LiveOnly(rs)) == LiveIds(rs)
  {
    if rs != [] {
      var front, last := rs[..|rs| - 1], rs[|rs| - 1];
      SurvivorIds(front);
      LiveIdsSplit(rs, |rs| - 1);
      assert rs[|rs| - 1..] == [last];
      LiveIdsSplit(LiveOnly(rs), |LiveOnly(front)|);
      assert LiveOnly(rs)[..|LiveOnly(front)|] == LiveOnly(front);
      assert LiveOnly(rs)[|LiveOnly(front)|..] == if last.deleted then [] else [last];
    }
  }
}
