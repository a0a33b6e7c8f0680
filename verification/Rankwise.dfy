/** Comparing two ranked arrays rank by rank when the candidates of one are among the candidates of the other. */
module Rankwise {
  import opened Multisets
  import opened TopK

  type Pair = (real, nat)

  function FlatMap<A, B>(s: seq<A>, f: A -> seq<B>): (r: seq<B>) {
    if s == [] then [] else FlatMap(s[..|s| - 1], f) + f(s[|s| - 1])
  }

  lemma {:induction false} FlatMapConcat<A, B>(a: seq<A>, b: seq<A>, f: A -> seq<B>)
    ensures FlatMap(a + b, f) == FlatMap(a, f) + FlatMap(b, f)
    decreases |b|
  {
    if b == [] {
      assert a + b == a;
    } else {
      FlatMapConcat(a, b[..|b| - 1], f);
      assert (a + b)[..|a + b| - 1] == a + b[..|b| - 1];
    }
  }

  lemma FlatMapMiddle<A, B>(left: seq<A>, x: A, right: seq<A>, f: A -> seq<B>)
    ensures multiset(FlatMap(left + [x] + right, f))
         == multiset(FlatMap(left + right, f)) + multiset(FlatMap([x], f))
  {
    FlatMapConcat(left + [x], right, f);
    FlatMapConcat(left, [x], f);
    FlatMapConcat(left, right, f);
  }

  /** Mapping each element to a sequence and joining respects inclusion of multisets. */
  lemma {:induction false} FlatMapMonotone<A, B>(a: seq<A>, b: seq<A>, f: A -> seq<B>)
    requires multiset(a) <= multiset(b)
    ensures multiset(FlatMap(a, f)) <= multiset(FlatMap(b, f))
    decreases |a|
  {
    if a != [] {
      hide FlatMap;
      var front, x := a[..|a| - 1], a[|a| - 1];
      assert a == front + [x] && a == front + [x] + [] && front + [] == front;
      assert x in multiset(a) && x in multiset(b);
      var p :| 0 <= p < |b| && b[p] == x;
      var left, right := b[..p], b[p + 1..];
      assert b == left + [x] + right;
      RemoveOne(front, x, left, right);
      FlatMapMonotone(front, left + right, f);
      FlatMapMiddle(left, x, right, f);
      FlatMapMiddle(front, x, [], f);
    }
  }

  lemma FlatMapSameMultiset<A, B>(a: seq<A>, b: seq<A>, f: A -> seq<B>)
    requires multiset(a) == multiset(b)
    ensures multiset(FlatMap(a, f)) == multiset(FlatMap(b, f))
  {
    FlatMapMonotone(a, b, f);
    FlatMapMonotone(b, a, f);
  }

  // ---- sorted sequences of numbers ----

  predicate NonDecreasing(s: seq<real>) {
    forall i, j :: 0 <= i < j < |s| ==> s[i] <= s[j]
  }

  lemma SmallerIsAbsent(a: seq<real>, x: real)
    requires NonDecreasing(a) && a != [] && x < a[0]
    ensures multiset(a)[x] == 0
  {
    assert forall i :: 0 <= i < |a| ==> a[i] != x;
    assert x !in a;
  }

  lemma DropFirsts(a: seq<real>, b: seq<real>)
    requires a != [] && b != [] && multiset(a) <= multiset(b)
    ensures a[0] == b[0] ==> multiset(a[1..]) <= multiset(b[1..])
    ensures multiset(a)[b[0]] == 0 ==> multiset(a) <= multiset(b[1..])
  {
    assert a == [a[0]] + a[1..] && b == [b[0]] + b[1..];
    if a[0] == b[0] {
      assert multiset(a[1..]) + multiset{a[0]} == multiset(a);
      assert multiset(b[1..]) + multiset{a[0]} == multiset(b);
      CancelOne(multiset(a[1..]), multiset(b[1..]), a[0]);
    }
    if multiset(a)[b[0]] == 0 {
      forall y
        ensures multiset(a)[y] <= multiset(b[1..])[y]
      {
        assert multiset(b)[y] == multiset([b[0]])[y] + multiset(b[1..])[y];
      }
    }
  }

  /** Having more numbers to choose from, a sorted sequence is smaller or equal at every rank. */
  lemma {:induction false} MoreIsSmaller(a: seq<real>, b: seq<real>, r: nat)
    requires NonDecreasing(a) && NonDecreasing(b) && multiset(a) <= multiset(b)
    requires r < |a|
    ensures r < |b| && b[r] <= a[r]
    decreases |b|
  {
    hide NonDecreasing;
    FirstsCompare(a, b);
    DropFirsts(a, b);
    TailSorted(a);
    TailSorted(b);
    if b[0] < a[0] {
      SmallerIsAbsent(a, b[0]);
      MoreIsSmaller(a, b[1..], r);
      UpOne(b, r);
    } else if r > 0 {
      MoreIsSmaller(a[1..], b[1..], r - 1);
    }
  }

  lemma FirstsCompare(a: seq<real>, b: seq<real>)
    requires NonDecreasing(b) && a != [] && multiset(a) <= multiset(b)
    ensures b != [] && b[0] <= a[0]
  {
    assert a[0] in multiset(a) && a[0] in multiset(b);
    var p :| 0 <= p < |b| && b[p] == a[0];
  }

  lemma TailSorted(s: seq<real>)
    requires NonDecreasing(s) && s != []
    ensures NonDecreasing(s[1..])
  {
  }

  lemma UpOne(s: seq<real>, r: nat)
    requires NonDecreasing(s) && s != [] && r < |s[1..]|
    ensures s[r] <= s[1..][r]
  {
  }

  // ---- from candidates to pairs of distance and id ----

  function PairAt(e: Ranked, id: nat -> nat): Pair {
    (e.dist, id(e.index))
  }

  function PairSeq(es: seq<Ranked>, id: nat -> nat): (ps: seq<Pair>)
    ensures |ps| == |es|
  {
    seq(|es|, i requires 0 <= i < |es| => PairAt(es[i], id))
  }

  lemma InsertPairs(s: seq<Ranked>, e: Ranked, id: nat -> nat)
    ensures multiset(PairSeq(Insert(s, e), id)) == multiset(PairSeq(s, id)) + multiset{PairAt(e, id)}
  {
    var p := Spot(s, e.dist);
    var a, b := PairSeq(s[..p], id), PairSeq(s[p..], id);
    assert PairSeq(Insert(s, e), id) == a + [PairAt(e, id)] + b;
    assert PairSeq(s, id) == a + b;
  }

  lemma {:induction false} SortPairs(es: seq<Ranked>, id: nat -> nat)
    ensures multiset(PairSeq(StableSort(es), id)) == multiset(PairSeq(es, id))
  {
    if es != [] {
      hide PairSeq, Insert, PairAt;
      var front, last := es[..|es| - 1], es[|es| - 1];
      SortPairs(front, id);
      InsertPairs(StableSort(front), last, id);
      PairsAppend(es, id);
    }
  }

  lemma PairsAppend(es: seq<Ranked>, id: nat -> nat)
    requires es != []
    ensures var n := |es| - 1;
            multiset(PairSeq(es, id)) == multiset(PairSeq(es[..n], id)) + multiset{PairAt(es[n], id)}
  {
    hide PairAt;
    var n := |es| - 1;
    assert PairSeq(es, id) == PairSeq(es[..n], id) + [PairAt(es[n], id)];
  }

  function First(p: Pair): seq<real> {
    [p.0]
  }

  lemma {:induction false} DistancesOfPairs(ps: seq<Pair>)
    ensures |FlatMap(ps, First)| == |ps|
    ensures forall i :: 0 <= i < |ps| ==> FlatMap(ps, First)[i] == ps[i].0
  {
    if ps != [] {
      DistancesOfPairs(ps[..|ps| - 1]);
    }
  }

  lemma SortedFirsts(es: seq<Ranked>, id: nat -> nat)
    ensures var ds := FlatMap(PairSeq(StableSort(es), id), First);
            && |ds| == |es| && NonDecreasing(ds)
            && forall i :: 0 <= i < |es| ==> ds[i] == StableSort(es)[i].dist
  {
    StableSortSorts(es);
    DistancesOfPairs(PairSeq(StableSort(es), id));
  }

  /** The sorted distances of fewer candidates are at least those of more candidates, rank by rank. */
  lemma SortedDistancesCompare(a: seq<Ranked>, b: seq<Ranked>, idA: nat -> nat, idB: nat -> nat, r: nat)
    requires multiset(PairSeq(a, idA)) <= multiset(PairSeq(b, idB))
    requires r < |a|
    ensures r < |b| && StableSort(b)[r].dist <= StableSort(a)[r].dist
  {
    hide FlatMap, StableSort, PairSeq;
    var pa, pb := PairSeq(StableSort(a), idA), PairSeq(StableSort(b), idB);
    SortPairs(a, idA);
    SortPairs(b, idB);
    FlatMapMonotone(pa, pb, First);
    SortedFirsts(a, idA);
    SortedFirsts(b, idB);
    MoreIsSmaller(FlatMap(pa, First), FlatMap(pb, First), r);
  }

  // ---- the arrays themselves ----

  lemma RankingAt(es: seq<Ranked>, k: nat, sentinel: Ranked, r: nat)
    requires r < k
    ensures var below := Below(es, sentinel.dist);
            Ranking(es, k, sentinel)[r] == (if r < |below| then StableSort(below)[r] else sentinel)
  {
    RankingIsSortedPrefix(es, k, sentinel);
  }

  /** With fewer candidates no rank gets nearer. */
  lemma FewerCandidatesRankFarther(a: seq<Ranked>, b: seq<Ranked>, idA: nat -> nat, idB: nat -> nat,
                                   k: nat, sentinel: Ranked, r: nat)
    requires multiset(PairSeq(Below(a, sentinel.dist), idA)) <= multiset(PairSeq(Below(b, sentinel.dist), idB))
    requires r < k
    ensures Ranking(b, k, sentinel)[r].dist <= Ranking(a, k, sentinel)[r].dist
  {
    var a', b' := Below(a, sentinel.dist), Below(b, sentinel.dist);
    RankingAt(a, k, sentinel, r);
    RankingAt(b, k, sentinel, r);
    StableSortBelow(b, sentinel.dist);
    if r < |a'| {
      SortedDistancesCompare(a', b', idA, idB, r);
    }
  }

  /** With the same candidates the distances agree at every rank. */
  lemma SameCandidatesSameDistances(a: seq<Ranked>, b: seq<Ranked>, idA: nat -> nat, idB: nat -> nat,
                                    k: nat, sentinel: Ranked, r: nat)
    requires multiset(PairSeq(Below(a, sentinel.dist), idA)) == multiset(PairSeq(Below(b, sentinel.dist), idB))
    requires r < k
    ensures Ranking(a, k, sentinel)[r].dist == Ranking(b, k, sentinel)[r].dist
  {
    FewerCandidatesRankFarther(a, b, idA, idB, k, sentinel, r);
    FewerCandidatesRankFarther(b, a, idB, idA, k, sentinel, r);
  }

  lemma PairSeqConcat(a: seq<Ranked>, b: seq<Ranked>, id: nat -> nat)
    ensures PairSeq(a + b, id) == PairSeq(a, id) + PairSeq(b, id)
  {
  }

  lemma {:induction false} FarPairsAbsent(es: seq<Ranked>, id: nat -> nat, pair: Pair)
    requires forall i :: 0 <= i < |es| ==> pair.0 < es[i].dist
    ensures multiset(PairSeq(es, id))[pair] == 0
  {
    if es != [] {
      var front := es[..|es| - 1];
      FarPairsAbsent(front, id, pair);
      assert PairSeq(es, id) == PairSeq(front, id) + [PairAt(es[|es| - 1], id)];
    }
  }

  /** Two extensions of one sequence by farther candidates hold a near pair equally often. */
  lemma NearPairsCount(head: seq<Ranked>, x: seq<Ranked>, y: seq<Ranked>, id: nat -> nat, pair: Pair)
    requires forall i :: 0 <= i < |x| ==> pair.0 < x[i].dist
    requires forall i :: 0 <= i < |y| ==> pair.0 < y[i].dist
    ensures multiset(PairSeq(head + x, id))[pair] == multiset(PairSeq(head + y, id))[pair]
  {
    hide PairSeq;
    PairSeqConcat(head, x, id);
    PairSeqConcat(head, y, id);
    FarPairsAbsent(x, id, pair);
    FarPairsAbsent(y, id, pair);
  }

  /** A pair strictly nearer than the last rank is in the array as often as among the candidates. */
  lemma NearPairsAreAllRanked(es: seq<Ranked>, id: nat -> nat, k: nat, sentinel: Ranked, pair: Pair)
    requires k > 0 && pair.0 < Ranking(es, k, sentinel)[k - 1].dist
    ensures multiset(PairSeq(Ranking(es, k, sentinel), id))[pair]
         == multiset(PairSeq(Below(es, sentinel.dist), id))[pair]
  {
    hide PairSeq, StableSort, Below, Ranking;
    var below := Below(es, sentinel.dist);
    var sorted, pad := StableSort(below), Repeat(sentinel, k);
    RankingIsSortedPrefix(es, k, sentinel);
    RankingAt(es, k, sentinel, k - 1);
    StableSortBelow(es, sentinel.dist);
    SortPairs(below, id);
    if k <= |sorted| {
      assert (sorted + pad)[..k] == sorted[..k] + [] && sorted == sorted[..k] + sorted[k..];
      NearPairsCount(sorted[..k], [], sorted[k..], id, pair);
    } else {
      assert (sorted + pad)[..k] == sorted + pad[..k - |sorted|] && sorted == sorted + [];
      NearPairsCount(sorted, [], pad[..k - |sorted|], id, pair);
    }
  }
}
