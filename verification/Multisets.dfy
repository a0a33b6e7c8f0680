/** Taking one element away from both sides of a comparison of multisets. */
module Multisets {
  lemma CancelOne<T>(a: multiset<T>, b: multiset<T>, x: T)
    requires a + multiset{x} <= b + multiset{x}
    ensures a <= b
  {
    forall y
      ensures a[y] <= b[y]
    {
      assert (a + multiset{x})[y] <= (b + multiset{x})[y];
    }
  }

  lemma MultisetMiddle<A>(left: seq<A>, x: A, right: seq<A>)
    ensures multiset(left + [x] + right) == multiset(left + right) + multiset{x}
  {
  }

  /** Two arrangements of the same elements: taking an element from each leaves arrangements of the same elements. */
  lemma RemoveOne<A>(front: seq<A>, x: A, left: seq<A>, right: seq<A>)
    requires multiset(front + [x]) <= multiset(left + [x] + right)
    ensures multiset(front) <= multiset(left + right)
    ensures multiset(front + [x]) == multiset(left + [x] + right) ==> multiset(front) == multiset(left + right)
  {
    MultisetMiddle(left, x, right);
    CancelOne(multiset(front), multiset(left + right), x);
    if multiset(front + [x]) == multiset(left + [x] + right) {
      CancelOne(multiset(left + right), multiset(front), x);
    }
  }
}
