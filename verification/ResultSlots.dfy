/** The caller's result array of a search: ranked slots, each owning a heap copy of its metadata. */
module ResultSlots {
  import opened Bytes
  import opened TopK

  const FLT_MAX: real := 340282346638528859811704183484516925440.0

  /** The C heap, as far as metadata copies are concerned. Freed handles are never handed out again, so a handle that
      is not among the live ones dangles. */
  class CHeap {
    var strings: map<nat, seq<Byte>>
    var next: nat

    predicate Valid()
      reads this
    {
      forall h :: h in strings ==> h < next
    }

    constructor ()
      ensures Valid() && strings == map[]
    {
      strings, next := map[], 0;
    }

    method Strdup(s: seq<Byte>) returns (h: nat)
      requires Valid()
      modifies this
      ensures Valid() && h == old(next) && next == h + 1 && strings == old(strings)[h := s]
    {
      h := next;
      strings := strings[h := s];
      next := next + 1;
    }

    /** Only a live block may be freed, and only once. */
    method Free(h: nat)
      requires Valid() && h in strings
      modifies `strings
      ensures Valid() && strings == old(strings) - {h}
    {
      strings := strings - {h};
    }
  }

  datatype SearchResult = SearchResult(id: nat, distance: real, metadata: Option<nat>)

  const EMPTY_SLOT := SearchResult(0, FLT_MAX, None)

  /** No two slots share a copy, every copy is live, and none predates the search. */
  predicate Owned(slots: seq<SearchResult>, strings: map<nat, seq<Byte>>, start: nat) {
    && (forall i :: 0 <= i < |slots| && slots[i].metadata.Some? ==>
          slots[i].metadata.value in strings && start <= slots[i].metadata.value)
    && (forall i, j :: 0 <= i < j < |slots| && slots[i].metadata.Some? && slots[j].metadata.Some? ==>
          slots[i].metadata.value != slots[j].metadata.value)
  }

  function Without(s: SearchResult): SearchResult {
    s.(metadata := None)
  }

  /** What the slots hold once `s` has been put at `p`: those behind move back by one and the last one falls off. */
  function Placed(slots: seq<SearchResult>, p: nat, s: SearchResult): (r: seq<SearchResult>)
    requires p < |slots|
    ensures |r| == |slots|
  {
    slots[..p] + [s] + slots[p..|slots| - 1]
  }

  /** The heap after the copy of the slot that falls off has been freed. */
  function Released(slots: seq<SearchResult>, p: nat, strings: map<nat, seq<Byte>>): map<nat, seq<Byte>>
    requires p < |slots|
  {
    if p < |slots| - 1 && slots[|slots| - 1].metadata.Some? then strings - {slots[|slots| - 1].metadata.value} else strings
  }

  /** The heap after a copy of the new candidate's metadata has been made at handle `next`. */
  function Copied(strings: map<nat, seq<Byte>>, next: nat, metadata: Option<seq<Byte>>): map<nat, seq<Byte>> {
    if metadata.Some? then strings[next := metadata.value] else strings
  }

  /** Where the scan over the slots' distances, from the far end, stops. */
  function ScanSpot(slots: seq<SearchResult>, dis: real): (p: nat)
    ensures p <= |slots|
    ensures forall i :: p <= i < |slots| ==> dis < slots[i].distance
    ensures p > 0 ==> slots[p - 1].distance <= dis
  {
    if slots == [] || slots[|slots| - 1].distance <= dis then |slots| else ScanSpot(slots[..|slots| - 1], dis)
  }

  lemma ScanSpotIs(slots: seq<SearchResult>, dis: real, p: nat)
    requires p <= |slots| && (forall i :: p <= i < |slots| ==> dis < slots[i].distance)
    requires p > 0 ==> slots[p - 1].distance <= dis
    ensures ScanSpot(slots, dis) == p
  {
  }

  /** Makes room at `p`. Only the copy of the last slot is freed, and no slot keeps it. */
  method ShiftBack(out: array<SearchResult>, heap: CHeap, p: nat)
    requires p < out.Length && heap.Valid()
    requires out[out.Length - 1].metadata.Some? ==> out[out.Length - 1].metadata.value in heap.strings
    modifies out, heap`strings
    ensures heap.Valid() && heap.strings == Released(old(out[..]), p, old(heap.strings))
    ensures out[..] == if p == out.Length - 1 then old(out[..]) else Placed(old(out[..]), p, Without(old(out[p])))
  {
    var n := out.Length;
    ghost var slots := out[..];
    var j := n - 1;
    while j > p
      invariant p <= j <= n - 1 && heap.Valid()
      invariant heap.strings == Released(slots, j, old(heap.strings))
      invariant out[..] == if j == n - 1 then slots else Placed(slots, j, Without(slots[j]))
    {
      ghost var before := out[..];
      LastInHand(slots, before, j);
      ShiftOne(out, heap, j);
      ShiftStep(slots, before, j);
      j := j - 1;
    }
  }

  /** One turn of the shift. */
  method ShiftOne(out: array<SearchResult>, heap: CHeap, j: nat)
    requires 0 < j < out.Length && heap.Valid()
    requires out[j].metadata.Some? ==> out[j].metadata.value in heap.strings
    modifies out, heap`strings
    ensures heap.Valid()
    ensures heap.strings
         == if old(out[j]).metadata.Some? then old(heap.strings) - {old(out[j]).metadata.value} else old(heap.strings)
    ensures out[..] == old(out[..])[j := old(out[j - 1])][j - 1 := Without(old(out[j - 1]))]
  {
    if out[j].metadata.Some? {
      heap.Free(out[j].metadata.value);
    }
    out[j] := out[j - 1];
    out[j - 1] := Without(out[j - 1]);
  }

  lemma LastInHand(slots: seq<SearchResult>, before: seq<SearchResult>, j: nat)
    requires j < |slots| && before == if j == |slots| - 1 then slots else Placed(slots, j, Without(slots[j]))
    ensures before[j] == if j == |slots| - 1 then slots[j] else Without(slots[j])
  {
  }

  lemma ShiftStep(slots: seq<SearchResult>, before: seq<SearchResult>, j: nat)
    requires 0 < j < |slots|
    requires before == if j == |slots| - 1 then slots else Placed(slots, j, Without(slots[j]))
    ensures before[j := before[j - 1]][j - 1 := Without(before[j - 1])] == Placed(slots, j - 1, Without(slots[j - 1]))
  {
  }

  lemma PlaceOver(slots: seq<SearchResult>, p: nat, s: SearchResult)
    requires p < |slots|
    ensures (if p == |slots| - 1 then slots else Placed(slots, p, Without(slots[p])))[p := s] == Placed(slots, p, s)
  {
  }

  lemma PlacedAt(slots: seq<SearchResult>, p: nat, s: SearchResult, r: nat)
    requires p < |slots| && r < |slots|
    ensures Placed(slots, p, s)[r] == if r < p then slots[r] else if r == p then s else slots[r - 1]
  {
  }

  /** What a search has in hand: its slots and the heap. */
  datatype Held = Held(slots: seq<SearchResult>, strings: map<nat, seq<Byte>>, next: nat)

  datatype Candidate = Candidate(dis: real, id: nat, metadata: Option<seq<Byte>>)

  /** One candidate offered to the slots. */
  function Offered(h: Held, c: Candidate): (h': Held)
    ensures |h'.slots| == |h.slots|
  {
    var p := ScanSpot(h.slots, c.dis);
    if p == |h.slots| then h
    else
      var copy := if c.metadata.Some? then Some(h.next) else None;
      Held(Placed(h.slots, p, SearchResult(c.id, c.dis, copy)),
           Copied(Released(h.slots, p, h.strings), h.next, c.metadata),
           if c.metadata.Some? then h.next + 1 else h.next)
  }

  /** All candidates offered in order, starting from empty slots. */
  function HeldAfter(cs: seq<Candidate>, k: nat, strings: map<nat, seq<Byte>>, next: nat): (h: Held)
    ensures |h.slots| == k
  {
    if cs == [] then Held(seq(k, _ => EMPTY_SLOT), strings, next)
    else Offered(HeldAfter(cs[..|cs| - 1], k, strings, next), cs[|cs| - 1])
  }

  lemma NothingHeld(k: nat, strings: map<nat, seq<Byte>>, next: nat)
    ensures HeldAfter([], k, strings, next) == Held(seq(k, _ => EMPTY_SLOT), strings, next)
  {
  }

  lemma HeldStep(cs: seq<Candidate>, c: Candidate, k: nat, strings: map<nat, seq<Byte>>, next: nat)
    ensures HeldAfter(cs + [c], k, strings, next) == Offered(HeldAfter(cs, k, strings, next), c)
  {
    assert (cs + [c])[..|cs|] == cs;
  }

  /** Fills the caller's array with sentinels. */
  method ClearSlots(out: array<SearchResult>)
    modifies out
    ensures out[..] == seq(out.Length, _ => EMPTY_SLOT)
  {
    for j := 0 to out.Length
      invariant forall i :: 0 <= i < j ==> out[i] == EMPTY_SLOT
    {
      out[j] := EMPTY_SLOT;
    }
  }

  /** Offers one candidate to the array: scan from the far end, shift, copy its metadata and write the slot. */
  method Offer(out: array<SearchResult>, heap: CHeap, dis: real, id: nat, metadata: Option<seq<Byte>>)
    requires out.Length > 0 && heap.Valid()
    requires out[out.Length - 1].metadata.Some? ==> out[out.Length - 1].metadata.value in heap.strings
    modifies out, heap
    ensures heap.Valid()
    ensures Held(out[..], heap.strings, heap.next)
         == Offered(old(Held(out[..], heap.strings, heap.next)), Candidate(dis, id, metadata))
  {
    hide Placed, Released, ScanSpot;
    ghost var slots := out[..];
    var n := out.Length;
    if dis < out[n - 1].distance {
      var p := n - 1;
      while p > 0 && dis < out[p - 1].distance
        invariant 0 <= p <= n - 1
        invariant forall i :: p <= i < n ==> dis < slots[i].distance
      {
        p := p - 1;
      }
      ScanSpotIs(slots, dis, p);
      ShiftBack(out, heap, p);
      ghost var shifted := out[..];
      out[p] := SearchResult(id, dis, out[p].metadata);
      var copy := None;
      if metadata.Some? {
        var h := heap.Strdup(metadata.value);
        copy := Some(h);
      }
      out[p] := SearchResult(id, dis, copy);
      assert out[..] == shifted[p := SearchResult(id, dis, copy)];
      PlaceOver(slots, p, SearchResult(id, dis, copy));
    } else {
      ScanSpotIs(slots, dis, n);
    }
  }

  // ---- ownership ----

  ghost predicate Sound(h: Held, start: nat) {
    Owned(h.slots, h.strings, start) && start <= h.next && forall x :: x in h.strings ==> x < h.next
  }

  /** Offering a candidate keeps the slots in sole possession of live copies: nothing is freed twice, and no slot keeps
      a freed copy. */
  lemma OfferedSound(h: Held, c: Candidate, start: nat)
    requires Sound(h, start)
    ensures Sound(Offered(h, c), start)
  {
    hide Placed, ScanSpot;
    var p := ScanSpot(h.slots, c.dis);
    if p < |h.slots| {
      var s := SearchResult(c.id, c.dis, if c.metadata.Some? then Some(h.next) else None);
      var r := Placed(h.slots, p, s);
      var strings := Offered(h, c).strings;
      forall i | 0 <= i < |r| && r[i].metadata.Some?
        ensures r[i].metadata.value in strings && start <= r[i].metadata.value
      {
        PlacedAt(h.slots, p, s, i);
      }
      forall i, j | 0 <= i < j < |r| && r[i].metadata.Some? && r[j].metadata.Some?
        ensures r[i].metadata.value != r[j].metadata.value
      {
        PlacedAt(h.slots, p, s, i);
        PlacedAt(h.slots, p, s, j);
      }
    }
  }

  lemma {:induction false} HeldSound(cs: seq<Candidate>, k: nat, strings: map<nat, seq<Byte>>, next: nat)
    requires forall x :: x in strings ==> x < next
    ensures Sound(HeldAfter(cs, k, strings, next), next)
  {
    if cs != [] {
      HeldSound(cs[..|cs| - 1], k, strings, next);
      OfferedSound(HeldAfter(cs[..|cs| - 1], k, strings, next), cs[|cs| - 1], next);
    }
  }

  function Copies(slots: seq<SearchResult>): set<nat> {
    set i | 0 <= i < |slots| && slots[i].metadata.Some? :: slots[i].metadata.value
  }

  function Copy(s: SearchResult): set<nat> {
    if s.metadata.Some? then {s.metadata.value} else {}
  }

  lemma CopiesConcat(a: seq<SearchResult>, b: seq<SearchResult>)
    ensures Copies(a + b) == Copies(a) + Copies(b)
  {
    forall x | x in Copies(b)
      ensures x in Copies(a + b)
    {
      var i :| 0 <= i < |b| && b[i].metadata.Some? && b[i].metadata.value == x;
      assert (a + b)[|a| + i] == b[i];
    }
    forall x | x in Copies(a)
      ensures x in Copies(a + b)
    {
      var i :| 0 <= i < |a| && a[i].metadata.Some? && a[i].metadata.value == x;
      assert (a + b)[i] == a[i];
    }
  }

  lemma CopiesOne(s: SearchResult)
    ensures Copies([s]) == Copy(s)
  {
    assert s.metadata.Some? ==> [s][0].metadata.value in Copies([s]);
  }

  lemma CopiesPlaced(slots: seq<SearchResult>, p: nat, s: SearchResult)
    requires p < |slots|
    ensures Copies(slots) == Copies(slots[..|slots| - 1]) + Copy(slots[|slots| - 1])
    ensures Copies(Placed(slots, p, s)) == Copies(slots[..|slots| - 1]) + Copy(s)
  {
    hide Copies;
    var n := |slots|;
    var a, b := slots[..p], slots[p..n - 1];
    assert slots == (a + b) + [slots[n - 1]] && slots[..n - 1] == a + b;
    CopiesConcat(a + b, [slots[n - 1]]);
    CopiesConcat(a, b);
    CopiesConcat(a + [s], b);
    CopiesConcat(a, [s]);
    CopiesOne(s);
    CopiesOne(slots[n - 1]);
  }

  /** Live blocks that no slot owns. */
  function Unowned(h: Held): set<nat> {
    h.strings.Keys - Copies(h.slots)
  }

  /** The copy, if any, that offering `c` leaves live but without an owner: a candidate going straight into the last
      slot writes over that slot's metadata pointer. */
  function LostCopy(h: Held, c: Candidate): set<nat> {
    if h.slots != [] && ScanSpot(h.slots, c.dis) == |h.slots| - 1 && h.slots[|h.slots| - 1].metadata.Some?
    then {h.slots[|h.slots| - 1].metadata.value} else {}
  }

  /** Copies leak exactly by being written over in the last slot. */
  lemma OfferedLeak(h: Held, c: Candidate, start: nat)
    requires Sound(h, start)
    ensures Unowned(Offered(h, c)) == Unowned(h) + LostCopy(h, c)
  {
    hide Placed, ScanSpot, Owned;
    var p, n := ScanSpot(h.slots, c.dis), |h.slots|;
    if p < n {
      var s := SearchResult(c.id, c.dis, if c.metadata.Some? then Some(h.next) else None);
      CopiesPlaced(h.slots, p, s);
      LastCopyDistinct(h, start);
    }
  }

  lemma LastCopyDistinct(h: Held, start: nat)
    requires Sound(h, start) && h.slots != []
    ensures var n := |h.slots|;
            && Copies(h.slots[..n - 1]) !! Copy(h.slots[n - 1])
            && Copies(h.slots[..n - 1]) + Copy(h.slots[n - 1]) <= h.strings.Keys
            && h.next !in h.strings.Keys
  {
  }

  /** The smallest instance: one slot, two candidates, the second one nearer; the first one's copy is lost. */
  lemma LeakWitness()
    ensures Unowned(HeldAfter([Candidate(2.0, 1, Some([65])), Candidate(1.0, 2, Some([66]))], 1, map[], 0)) == {0}
  {
    var a, b := Candidate(2.0, 1, Some([65])), Candidate(1.0, 2, Some([66]));
    var h0 := Held([EMPTY_SLOT], map[], 0);
    assert seq(1, _ => EMPTY_SLOT) == [EMPTY_SLOT];
    assert [a][..0] == [] && [a, b][..1] == [a];
    assert HeldAfter([a], 1, map[], 0) == Offered(h0, a);
    HeldSound([], 1, map[], 0);
    OfferedLeak(h0, a, 0);
    OfferedSound(h0, a, 0);
    ScanSpotIs(h0.slots, 2.0, 0);
    var h1 := Offered(h0, a);
    assert h1.slots == [SearchResult(1, 2.0, Some(0))];
    ScanSpotIs(h1.slots, 1.0, 0);
    OfferedLeak(h1, b, 0);
  }

  // ---- what the slots rank ----

  function RankedOf(cs: seq<Candidate>): (es: seq<Ranked>)
    ensures |es| == |cs|
  {
    seq(|cs|, i requires 0 <= i < |cs| => Ranked(cs[i].dis, i))
  }

  const SENTINEL := Ranked(FLT_MAX, 0)

  /** A slot shows the candidate that the ranking put there, or it is empty. */
  predicate Shows(slot: SearchResult, e: Ranked, cs: seq<Candidate>, strings: map<nat, seq<Byte>>) {
    && slot.distance == e.dist
    && if e.dist < FLT_MAX then
         && e.index < |cs| && slot.id == cs[e.index].id
         && match cs[e.index].metadata
            case None => slot.metadata == None
            case Some(m) => slot.metadata.Some? && slot.metadata.value in strings && strings[slot.metadata.value] == m
       else slot == EMPTY_SLOT
  }

  ghost predicate AllShow(h: Held, es: seq<Ranked>, cs: seq<Candidate>) {
    |h.slots| == |es| && forall r :: 0 <= r < |es| ==> Shows(h.slots[r], es[r], cs, h.strings)
  }

  lemma SameSpot(h: Held, es: seq<Ranked>, cs: seq<Candidate>, d: real)
    requires AllShow(h, es, cs)
    ensures ScanSpot(h.slots, d) == Spot(es, d)
  {
    var p := Spot(es, d);
    assert forall i :: 0 <= i < |es| ==> h.slots[i].distance == es[i].dist;
    ScanSpotIs(h.slots, d, p);
  }

  /** A copy owned by a slot that stays survives the offer unchanged. */
  lemma CopyKept(h: Held, c: Candidate, start: nat, q: nat)
    requires Sound(h, start) && q < |h.slots| && h.slots[q].metadata.Some?
    requires ScanSpot(h.slots, c.dis) <= q ==> q < |h.slots| - 1
    ensures var x := h.slots[q].metadata.value;
            x in h.strings && x in Offered(h, c).strings && Offered(h, c).strings[x] == h.strings[x]
  {
    var p, n := ScanSpot(h.slots, c.dis), |h.slots|;
    assert h.slots[q].metadata.value < h.next;
    if p < n - 1 && h.slots[n - 1].metadata.Some? {
      assert h.slots[q].metadata.value != h.slots[n - 1].metadata.value;
    }
  }

  lemma InsertAt(es: seq<Ranked>, e: Ranked, r: nat)
    requires r < |es|
    ensures var p := Spot(es, e.dist);
            BoundedInsert(es, e)[r] == if r < p then es[r] else if r == p then e else es[r - 1]
  {
  }

  lemma StillShows(slot: SearchResult, e: Ranked, cs: seq<Candidate>, c: Candidate, strings: map<nat, seq<Byte>>,
                   strings': map<nat, seq<Byte>>)
    requires Shows(slot, e, cs, strings)
    requires slot.metadata.Some? ==>
               var x := slot.metadata.value; x in strings && x in strings' && strings'[x] == strings[x]
    ensures Shows(slot, e, cs + [c], strings')
  {
  }

  lemma OfferedShowsAt(h: Held, es: seq<Ranked>, cs: seq<Candidate>, c: Candidate, start: nat, r: nat)
    requires AllShow(h, es, cs) && Sound(h, start) && r < |es|
    requires forall i :: 0 <= i < |es| ==> es[i].dist <= FLT_MAX
    ensures Shows(Offered(h, c).slots[r], BoundedInsert(es, Ranked(c.dis, |cs|))[r], cs + [c], Offered(h, c).strings)
  {
    hide Shows, BoundedInsert, Placed;
    SameSpot(h, es, cs, c.dis);
    var p, n := Spot(es, c.dis), |es|;
    InsertAt(es, Ranked(c.dis, |cs|), r);
    if p < n {
      PlacedAt(h.slots, p, SearchResult(c.id, c.dis, if c.metadata.Some? then Some(h.next) else None), r);
    }
    if r == p {
      NewSlotShows(h, cs, c);
    } else {
      var q := if r < p then r else r - 1;
      if h.slots[q].metadata.Some? {
        CopyKept(h, c, start, q);
      }
      StillShows(h.slots[q], es[q], cs, c, h.strings, Offered(h, c).strings);
    }
  }

  lemma NewSlotShows(h: Held, cs: seq<Candidate>, c: Candidate)
    requires ScanSpot(h.slots, c.dis) < |h.slots| && c.dis < FLT_MAX
    ensures Shows(SearchResult(c.id, c.dis, if c.metadata.Some? then Some(h.next) else None),
                  Ranked(c.dis, |cs|), cs + [c], Offered(h, c).strings)
  {
  }

  lemma OfferedShows(h: Held, es: seq<Ranked>, cs: seq<Candidate>, c: Candidate, start: nat)
    requires AllShow(h, es, cs) && Sound(h, start)
    requires forall r :: 0 <= r < |es| ==> es[r].dist <= FLT_MAX
    ensures AllShow(Offered(h, c), BoundedInsert(es, Ranked(c.dis, |cs|)), cs + [c])
  {
    hide Shows, BoundedInsert, Offered;
    forall r | 0 <= r < |es|
      ensures Shows(Offered(h, c).slots[r], BoundedInsert(es, Ranked(c.dis, |cs|))[r], cs + [c], Offered(h, c).strings)
    {
      OfferedShowsAt(h, es, cs, c, start, r);
    }
  }

  lemma SortedPrefixBelow(s: seq<Ranked>, k: nat, sentinel: Ranked)
    requires ByDistance(s) && forall i :: 0 <= i < |s| ==> s[i].dist < sentinel.dist
    ensures var r := (s + Repeat(sentinel, k))[..k];
            ByDistance(r) && forall i :: 0 <= i < k ==> r[i].dist <= sentinel.dist
  {
    var r := (s + Repeat(sentinel, k))[..k];
    assert forall i :: 0 <= i < k ==> r[i] == if i < |s| then s[i] else sentinel;
  }

  lemma {:induction false} RankingBelowSentinel(es: seq<Ranked>, k: nat, sentinel: Ranked)
    ensures ByDistance(Ranking(es, k, sentinel))
    ensures forall r :: 0 <= r < k ==> Ranking(es, k, sentinel)[r].dist <= sentinel.dist
  {
    hide Ranking, StableSort, Below, ByDistance, Repeat;
    RankingIsSortedPrefix(es, k, sentinel);
    StableSortBelow(es, sentinel.dist);
    SortedPrefixBelow(StableSort(Below(es, sentinel.dist)), k, sentinel);
  }

  /** The slots show the candidates as the bounded ranking orders them, each with a live copy of its metadata. */
  lemma {:induction false} SlotsShowRanking(cs: seq<Candidate>, k: nat, strings: map<nat, seq<Byte>>, next: nat)
    requires forall x :: x in strings ==> x < next
    ensures AllShow(HeldAfter(cs, k, strings, next), Ranking(RankedOf(cs), k, SENTINEL), cs)
  {
    if cs != [] {
      var front, c := cs[..|cs| - 1], cs[|cs| - 1];
      SlotsShowRanking(front, k, strings, next);
      HeldSound(front, k, strings, next);
      RankingBelowSentinel(RankedOf(front), k, SENTINEL);
      OfferedShows(HeldAfter(front, k, strings, next), Ranking(RankedOf(front), k, SENTINEL), front, c, next);
      assert front + [c] == cs;
      assert RankedOf(cs)[..|cs| - 1] == RankedOf(front);
    }
  }

  // ---- what a whole search loses ----

  /** The copies that the candidates of a search, one after another, leave without an owner. */
  function LostOver(cs: seq<Candidate>, k: nat, strings: map<nat, seq<Byte>>, next: nat): set<nat> {
    if cs == [] then {}
    else LostOver(cs[..|cs| - 1], k, strings, next)
         + LostCopy(HeldAfter(cs[..|cs| - 1], k, strings, next), cs[|cs| - 1])
  }

  /** After a search, the live blocks that no slot owns are those from before it and the copies lost over it; the lost
      ones are new. */
  lemma {:induction false} SearchLoses(cs: seq<Candidate>, k: nat, strings: map<nat, seq<Byte>>, next: nat)
    requires forall x :: x in strings ==> x < next
    ensures Unowned(HeldAfter(cs, k, strings, next)) == strings.Keys + LostOver(cs, k, strings, next)
    ensures forall x :: x in LostOver(cs, k, strings, next) ==> x >= next
  {
    hide Offered, LostCopy;
    if cs == [] {
      NothingHeld(k, strings, next);
      assert Copies(HeldAfter(cs, k, strings, next).slots) == {};
    } else {
      hide Unowned;
      var front, c := cs[..|cs| - 1], cs[|cs| - 1];
      SearchLoses(front, k, strings, next);
      HeldSound(front, k, strings, next);
      OfferedLeak(HeldAfter(front, k, strings, next), c, next);
      LostIsNew(HeldAfter(front, k, strings, next), c, next);
    }
  }

  lemma LostIsNew(h: Held, c: Candidate, start: nat)
    requires Sound(h, start)
    ensures forall x :: x in LostCopy(h, c) ==> x >= start
  {
  }

  /** Candidate `i` writes over a copy: it lands exactly in the last rank, and the candidate ranked there has metadata. */
  predicate WritesOver(cs: seq<Candidate>, k: nat, i: nat)
    requires i < |cs|
  {
    var ranks := Ranking(RankedOf(cs[..i]), k, SENTINEL);
    && k > 0 && Spot(ranks, cs[i].dis) == k - 1
    && ranks[k - 1].dist < FLT_MAX && ranks[k - 1].index < i && cs[ranks[k - 1].index].metadata.Some?
  }

  lemma LostWhenWrittenOver(cs: seq<Candidate>, k: nat, strings: map<nat, seq<Byte>>, next: nat, i: nat)
    requires i < |cs| && forall x :: x in strings ==> x < next
    ensures LostCopy(HeldAfter(cs[..i], k, strings, next), cs[i]) == {} <==> !WritesOver(cs, k, i)
  {
    hide HeldAfter, Ranking, ScanSpot, Spot;
    var before, ranks := cs[..i], Ranking(RankedOf(cs[..i]), k, SENTINEL);
    var h := HeldAfter(before, k, strings, next);
    SlotsShowRanking(before, k, strings, next);
    SameSpot(h, ranks, before, cs[i].dis);
    if k > 0 {
      assert Shows(h.slots[k - 1], ranks[k - 1], before, h.strings);
    }
  }

  lemma {:induction false} LostOverIff(cs: seq<Candidate>, k: nat, strings: map<nat, seq<Byte>>, next: nat, n: nat)
    requires n <= |cs| && forall x :: x in strings ==> x < next
    ensures LostOver(cs[..n], k, strings, next) == {} <==> forall i :: 0 <= i < n ==> !WritesOver(cs, k, i)
  {
    hide HeldAfter, LostCopy, WritesOver;
    if n > 0 {
      LostOverIff(cs, k, strings, next, n - 1);
      LostWhenWrittenOver(cs, k, strings, next, n - 1);
      assert cs[..n][..n - 1] == cs[..n - 1];
    }
  }

  /** Exactly when a search leaks nothing: no candidate lands in the last rank while one with metadata is there. */
  lemma NothingLostIff(cs: seq<Candidate>, k: nat, strings: map<nat, seq<Byte>>, next: nat)
    requires forall x :: x in strings ==> x < next
    ensures Unowned(HeldAfter(cs, k, strings, next)) == strings.Keys <==>
              forall i :: 0 <= i < |cs| ==> !WritesOver(cs, k, i)
  {
    hide HeldAfter, WritesOver, LostOver, Unowned;
    SearchLoses(cs, k, strings, next);
    LostOverIff(cs, k, strings, next, |cs|);
    assert cs[..|cs|] == cs;
    var lost := LostOver(cs, k, strings, next);
    if lost != {} {
      var x :| x in lost;
      assert x !in strings.Keys && x in strings.Keys + lost;
    }
  }
}
