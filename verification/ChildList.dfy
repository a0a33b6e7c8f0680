/** The child list of a JSON array or object: doubly linked, with the head's `prev` doubling as the tail pointer. */
module ChildList {
  /** The item behind a pointer, if there is one. */
  function Given(item: Item?): set<Item> {
    if item == null then {} else {item}
  }

  /** A JSON item, as far as its place in a list and its own list of children are concerned. `children` is the list that
      the pointers stand for. */
  class Item {
    var next: Item?
    var prev: Item?
    var child: Item?
    ghost var children: seq<Item>

    constructor ()
      ensures Valid() && children == [] && Detached()
    {
      next, prev, child, children := null, null, null, [];
    }

    ghost predicate Detached()
      reads this`next, this`prev
    {
      next == null && prev == null
    }

    ghost predicate Outside(item: Item)
      reads this`children
    {
      forall i :: 0 <= i < |children| ==> children[i] != item
    }

    /** The list invariant. */
    ghost predicate Valid()
      reads this`child, this`children, children`next, children`prev
    {
      && (forall i :: 0 <= i < |children| ==> children[i] != this)
      && (forall i, j :: 0 <= i < j < |children| ==> children[i] != children[j])
      && (child == null <==> children == [])
      && (children != [] ==>
            child == children[0] && child.prev == children[|children| - 1] && children[|children| - 1].next == null)
      && (forall i {:trigger children[i].prev} :: 0 < i < |children| ==> children[i].prev == children[i - 1])
      && (forall i {:trigger children[i].next} :: 0 <= i < |children| - 1 ==> children[i].next == children[i + 1])
    }

    /** Walks `index` links from the head. */
    method GetArrayItem(index: nat) returns (item: Item?)
      requires Valid()
      ensures item == if index < |children| then children[index] else null
    {
      var left: nat := index;
      item := child;
      ghost var at: nat := 0;
      while item != null && left > 0
        invariant at + left == index && at <= |children|
        invariant item == if at < |children| then children[at] else null
        decreases left
      {
        left := left - 1;
        item := item.next;
        at := at + 1;
      }
    }

    /** Appends through the tail pointer. */
    method AddItemToArray(item: Item?) returns (ok: bool)
      requires Valid()
      requires item != null && item != this ==> item.Detached() && Outside(item)
      modifies this`child, this`children, children`next, children`prev, Given(item)`next, Given(item)`prev
      ensures Valid() && ok == (item != null && item != this)
      ensures children == if ok then old(children) + [item] else old(children)
      ensures !ok ==> unchanged(this) && unchanged(old(children)) && (item != null ==> unchanged(item))
    {
      if item == null || item == this {
        return false;
      }
      if child == null {
        child := item;
        item.prev := item;
        item.next := null;
      } else if child.prev != null {
        child.prev.next := item;
        item.prev := child.prev;
        child.prev := item;
      }
      children := children + [item];
      return true;
    }

    /** Takes in the items that a parser has read: each one is linked behind the one before, and at the end the head's
        `prev` is set to the last. */
    method AdoptParsed(items: seq<Item>)
      requires Valid() && children == []
      requires forall i :: 0 <= i < |items| ==> items[i] != this && items[i].Detached()
      requires forall i, j :: 0 <= i < j < |items| ==> items[i] != items[j]
      modifies this`child, this`children, items`next, items`prev
      ensures Valid() && children == items
    {
      var head: Item?, current: Item? := null, null;
      for n := 0 to |items|
        invariant child == null && children == []
        invariant head == (if n == 0 then null else items[0]) && current == (if n == 0 then null else items[n - 1])
        invariant n > 0 ==> items[0].prev == null && items[n - 1].next == null
        invariant forall i {:trigger items[i].prev} :: 0 < i < n ==> items[i].prev == items[i - 1]
        invariant forall i {:trigger items[i].next} :: 0 <= i < n - 1 ==> items[i].next == items[i + 1]
        invariant forall i :: n <= i < |items| ==> items[i].Detached()
      {
        var item := items[n];
        if head == null {
          head := item;
        } else {
          current.next := item;
          item.prev := current;
        }
        current := item;
      }
      if head != null {
        head.prev := current;
      }
      child := head;
      children := items;
    }

    /** Inserts in front of position `which`; past the end it appends, and a negative position or no item is refused. The
        list itself is refused past the end too; in front of an item it would be linked into itself. */
    method InsertItemInArray(which: int, item: Item?) returns (ok: bool)
      requires Valid()
      requires item == this ==> !(0 <= which < |children|)
      requires item != null && item != this ==> item.Detached() && Outside(item)
      modifies this`child, this`children, children`next, children`prev, Given(item)`next, Given(item)`prev
      ensures Valid() && ok == (which >= 0 && item != null && item != this)
      ensures children == if !ok then old(children)
                          else if which >= |old(children)| then old(children) + [item]
                          else old(children)[..which] + [item] + old(children)[which..]
    {
      if which < 0 || item == null {
        return false;
      }
      var after := GetArrayItem(which);
      if after == null {
        ok := AddItemToArray(item);
        return;
      }
      ghost var s, n := children, |children|;
      assert after == s[which] && after.prev == s[if which == 0 then n - 1 else which - 1];
      if after != child && after.prev == null {
        return false;
      }
      item.next := after;
      item.prev := after.prev;
      after.prev := item;
      if after == child {
        child := item;
      } else {
        item.prev.next := item;
      }
      children := s[..which] + [item] + s[which..];
      assert forall i :: 0 <= i < which ==> children[i] == s[i];
      assert children[which] == item;
      assert forall i :: which < i <= n ==> children[i] == s[i - 1];
      assert children[n] == s[n - 1];
      return true;
    }

    /** Whether a pointer looks like a child of this list: it is the head or has a predecessor. */
    predicate Linked(item: Item?)
      reads this, item
    {
      item != null && (item == child || item.prev != null)
    }

    /** Unlinks the child at position `at`, which then points nowhere. A null pointer, or an item that is in no list, is
        refused. */
    method DetachItemViaPointer(item: Item?, ghost at: nat) returns (detached: Item?)
      requires Valid()
      requires Linked(item) ==> at < |children| && children[at] == item
      modifies this`child, this`children, children`next, children`prev
      ensures Valid()
      ensures detached == if old(Linked(item)) then item else null
      ensures detached == null ==> children == old(children)
      ensures detached != null ==> detached.Detached() && children == old(children)[..at] + old(children)[at + 1..]
    {
      if item == null || (item != child && item.prev == null) {
        return null;
      }
      ghost var s, n := children, |children|;
      assert item.prev == s[if at == 0 then n - 1 else at - 1];
      assert item.next == if at + 1 < n then s[at + 1] else null;
      if item != child {
        item.prev.next := item.next;
      }
      if item.next != null {
        item.next.prev := item.prev;
      }
      if item == child {
        child := item.next;
      } else if item.next == null {
        child.prev := item.prev;
      }
      item.prev := null;
      item.next := null;
      children := s[..at] + s[at + 1..];
      assert forall i :: 0 <= i < at ==> children[i] == s[i];
      assert forall i :: at <= i < n - 1 ==> children[i] == s[i + 1];
      assert n > 1 ==> children[n - 2] == s[if at == n - 1 then n - 2 else n - 1];
      return item;
    }

    method DetachItemFromArray(which: int) returns (detached: Item?)
      requires Valid()
      modifies this`child, this`children, children`next, children`prev
      ensures Valid()
      ensures detached == if 0 <= which < |old(children)| then old(children)[which] else null
      ensures children == if detached == null then old(children) else old(children)[..which] + old(children)[which + 1..]
    {
      if which < 0 {
        return null;
      }
      var item := GetArrayItem(which);
      detached := DetachItemViaPointer(item, which);
    }

    /** Puts a detached item in the place of the child at position `at`; the child is unlinked (and freed by the
        original). */
    method ReplaceItemViaPointer(item: Item?, replacement: Item?, ghost at: nat) returns (ok: bool)
      requires Valid()
      requires item != null && child != null ==> at < |children| && children[at] == item
      requires replacement != null && replacement != item ==>
                 replacement != this && replacement.Detached() && Outside(replacement)
      modifies this`child, this`children, children`next, children`prev
      modifies Given(replacement)`next, Given(replacement)`prev
      ensures Valid() && ok == (old(child) != null && item != null && replacement != null)
      ensures !ok || item == replacement ==> children == old(children)
      ensures ok && item != replacement ==> item.Detached() && children == old(children)[at := replacement]
    {
      if child == null || item == null || replacement == null {
        return false;
      }
      if replacement == item {
        return true;
      }
      ghost var s, n := children, |children|;
      assert item.prev == s[if at == 0 then n - 1 else at - 1];
      assert item.next == if at + 1 < n then s[at + 1] else null;
      replacement.next := item.next;
      replacement.prev := item.prev;
      if replacement.next != null {
        replacement.next.prev := replacement;
      }
      if child == item {
        if child.prev == child {
          replacement.prev := replacement;
        }
        child := replacement;
      } else {
        if replacement.prev != null {
          replacement.prev.next := replacement;
        }
        if replacement.next == null {
          child.prev := replacement;
        }
      }
      item.next := null;
      item.prev := null;
      children := s[at := replacement];
      assert children[at] == replacement && forall i :: 0 <= i < n && i != at ==> children[i] == s[i];
      return true;
    }

    method ReplaceItemInArray(which: int, replacement: Item?) returns (ok: bool)
      requires Valid()
      requires replacement != null ==> replacement != this && replacement.Detached() && Outside(replacement)
      modifies this`child, this`children, children`next, children`prev
      modifies Given(replacement)`next, Given(replacement)`prev
      ensures Valid() && ok == (0 <= which < |old(children)| && replacement != null)
      ensures children == if ok then old(children)[which := replacement] else old(children)
    {
      if which < 0 {
        return false;
      }
      var item := GetArrayItem(which);
      ok := ReplaceItemViaPointer(item, replacement, which);
    }
  }
}
