/** Bounded insertion into a ranked array, as both searches and the cluster probe perform it, and what it computes. */
module TopK {
  /** A candidate: its distance and the position it came from. */
  datatype Ranked = Ranked(dist: real, index: nat)

  predicate ByDistance(s: seq<Ranked>) {
    forall i, j :: 0 <= i < j < |s| ==> s[i].dist <= s[j].dist
  }

  /** Nearer first; among equals, the one that came earlier. */
  predicate Before(a: Ranked, b: Ranked) {
    a.dist < b.dist || (a.dist == b.dist && a.index < b.index)
  }

  predicate StrictlyRanked(s: seq<Ranked>) {
    forall i, j :: 0 <= i < j < |s| ==> Before(s[i], s[j])
  }

  /** Where the scan from the far end stops: everything from there on is farther than `d`. */
  function Spot(s: seq<Ranked>, d: real): (p: nat)
    ensures p <= |s|
    ensures forall i :: p <= i < |s| ==> d < s[i].dist
    ensures p > 0 ==> s[p - 1].dist <= d
  {
    if s == [] || s[|s| - 1].dist <= d then |s| else Spot(s[..|s| - 1], d)
  }

  function Insert(s: seq<Ranked>, e: Ranked): (r: seq<Ranked>)
    ensures |r| == |s| + 1
  {
    s[..Spot(s, e.dist)] + [e] + s[Spot(s, e.dist)..]
  }

  /** The array keeps its length; what falls off the end is dropped. */
  function BoundedInsert(s: seq<Ranked>, e: Ranked): (r: seq<Ranked>)
    ensures |r| == |s|
  {
    Insert(s, e)[..|s|]
  }

  function Repeat(e: Ranked, k: nat): seq<Ranked> {
    seq(k, _ => e)
  }

  /** The array after offering it the candidates in order, starting from sentinels. */
  function Ranking(es: seq<Ranked>, k: nat, sentinel: Ranked): (r: seq<Ranked>)
    ensures |r| == k
  {
    if es == [] then Repeat(sentinel, k)
    else BoundedInsert(Ranking(es[..|es| - 1], k, sentinel), es[|es| - 1])
  }

  // ---- the reference: a stable sort ----

  function StableSort(es: seq<Ranked>): (r: seq<Ranked>)
    ensures |r| == |es|
  {
    if es == [] then [] else Insert(StableSort(es[..|es| - 1]), es[|es| - 1])
  }

  function Below(es: seq<Ranked>, limit: real): (r: seq<Ranked>)
    ensures |r| <= |es|
  {
    if es == [] then []
    else Below(es[..|es| - 1], limit) + (if es[|es| - 1].dist < limit then [es[|es| - 1]] else [])
  }

  lemma InsertSorted(s: seq<Ranked>, e: Ranked)
    requires ByDistance(s)
    ensures ByDistance(Insert(s, e))
  {
  }

  lemma InsertMultiset(s: seq<Ranked>, e: Ranked)
    ensures multiset(Insert(s, e)) == multiset(s) + multiset{e}
  {
    var p := Spot(s, e.dist);
    assert s == s[..p] + s[p..];
  }

  /** Sorting arranges the same candidates by distance. */
  lemma {:induction false} StableSortSorts(es: seq<Ranked>)
    ensures ByDistance(StableSort(es))
    ensures multiset(StableSort(es)) == multiset(es)
  {
    if es != [] {
      var front, last := es[..|es| - 1], es[|es| - 1];
      StableSortSorts(front);
      InsertSorted(StableSort(front), last);
      InsertMultiset(StableSort(front), last);
      assert es == front + [last];
    }
  }

  predicate Ordered(es: seq<Ranked>) {
    forall i, j :: 0 <= i < j < |es| ==> es[i].index < es[j].index
  }

  lemma {:induction false} SortedIndicesBelow(es: seq<Ranked>, bound: nat)
    requires forall i :: 0 <= i < |es| ==> es[i].index < bound
    ensures forall i :: 0 <= i < |es| ==> StableSort(es)[i].index < bound
  {
    if es != [] {
      SortedIndicesBelow(es[..|es| - 1], bound);
    }
  }

  lemma InsertStrictly(s: seq<Ranked>, e: Ranked)
    requires StrictlyRanked(s)
    requires forall i :: 0 <= i < |s| ==> s[i].index < e.index
    ensures StrictlyRanked(Insert(s, e))
  {
    var p, r := Spot(s, e.dist), Insert(s, e);
    forall i, j | 0 <= i < j < |r|
      ensures Before(r[i], r[j])
    {
      if i < p == j {
        assert r[i] == s[i] && (i < p - 1 ==> Before(s[i], s[p - 1]));
      }
    }
  }

  /** ... and keeps equally distant candidates in the order in which they came. */
  lemma {:induction false} StableSortIsStable(es: seq<Ranked>)
    requires Ordered(es)
    ensures StrictlyRanked(StableSort(es))
  {
    if es != [] {
      var front, last := es[..|es| - 1], es[|es| - 1];
      StableSortIsStable(front);
      SortedIndicesBelow(front, last.index);
      InsertStrictly(StableSort(front), last);
    }
  }

  // ---- bounded insertion computes a prefix of the sort ----

  /** Inserting into a prefix gives a prefix of inserting into the whole. */
  lemma InsertIntoPrefix(s: seq<Ranked>, e: Ranked, k: nat)
    requires ByDistance(s) && k <= |s|
    ensures BoundedInsert(s[..k], e) == Insert(s, e)[..k]
  {
    var p, q := Spot(s, e.dist), Spot(s[..k], e.dist);
    assert p <= k ==> q == p;
    assert p > k ==> q == k;
  }

  lemma SpotIs(s: seq<Ranked>, d: real, p: nat)
    requires p <= |s| && (forall i :: p <= i < |s| ==> d < s[i].dist)
    requires p > 0 ==> s[p - 1].dist <= d
    ensures Spot(s, d) == p
  {
  }

  /** Nearer candidates go in front of the sentinels. */
  lemma InsertBeforeSentinels(s: seq<Ranked>, e: Ranked, sentinel: Ranked, k: nat)
    requires e.dist < sentinel.dist
    ensures Insert(s + Repeat(sentinel, k), e) == Insert(s, e) + Repeat(sentinel, k)
  {
    hide Spot;
    var r := Repeat(sentinel, k);
    var t := s + r;
    var p := Spot(s, e.dist);
    SpotIs(t, e.dist, p);
    assert t[..p] == s[..p] && t[p..] == s[p..] + r;
    assert (s[..p] + [e]) + (s[p..] + r) == (s[..p] + [e] + s[p..]) + r;
  }

  lemma Unaffected(s: seq<Ranked>, e: Ranked, k: nat)
    requires |s| >= k && (forall i :: 0 <= i < |s| ==> s[i].dist <= e.dist)
    ensures Insert(s, e)[..k] == s[..k]
  {
    SpotIs(s, e.dist, |s|);
  }

  /** The array after all candidates: the nearest of those under the sentinel's distance, sorted stably, then sentinels. */
  lemma {:induction false} RankingIsSortedPrefix(es: seq<Ranked>, k: nat, sentinel: Ranked)
    ensures Ranking(es, k, sentinel) == (StableSort(Below(es, sentinel.dist)) + Repeat(sentinel, k))[..k]
  {
    if es != [] {
      hide Insert;
      var front, e := es[..|es| - 1], es[|es| - 1];
      RankingIsSortedPrefix(front, k, sentinel);
      var below := Below(front, sentinel.dist);
      StableSortBelow(front, sentinel.dist);
      var whole := StableSort(below) + Repeat(sentinel, k);
      InsertIntoPrefix(whole, e, k);
      if e.dist < sentinel.dist {
        InsertBeforeSentinels(StableSort(below), e, sentinel, k);
        assert Below(es, sentinel.dist)[..|below|] == below;
      } else {
        Unaffected(whole, e, k);
        assert Below(es, sentinel.dist) == below;
      }
    }
  }

  lemma {:induction false} StableSortBelow(es: seq<Ranked>, limit: real)
    ensures ByDistance(StableSort(Below(es, limit)))
    ensures forall i :: 0 <= i < |Below(es, limit)| ==> StableSort(Below(es, limit))[i].dist < limit
  {
    StableSortSorts(Below(es, limit));
    BelowLimit(es, limit);
    var s, b := StableSort(Below(es, limit)), Below(es, limit);
    forall i | 0 <= i < |s|
      ensures s[i].dist < limit
    {
      assert s[i] in multiset(s);
      assert s[i] in multiset(b);
      assert s[i] in b;
    }
  }

  lemma {:induction false} BelowLimit(es: seq<Ranked>, limit: real)
    ensures forall i :: 0 <= i < |Below(es, limit)| ==> Below(es, limit)[i].dist < limit
  {
    if es != [] {
      BelowLimit(es[..|es| - 1], limit);
    }
  }
}
