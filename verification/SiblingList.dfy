/** Items on the heap and the doubly linked list of an item's children: the head's `prev` is the last
    item, the last `next` is null. Every edit keeps that and acts as the matching sequence operation. */
module SiblingList {
  import opened Json

  class Item {
    var next: Item?
    var prev: Item?
    var child: Item?
    var kind: int
    var text: Option<string>
    var number: real
    var name: Option<string>

    /** `cJSON_New_Item`: all fields zero. */
    constructor ()
      ensures next == null && prev == null && child == null && kind == 0 && text == None && number == 0.0
        && name == None
    {
      next, prev, child := null, null, null;
      kind, text, number, name := 0, None, 0.0, None;
    }
  }

  ghost predicate Distinct<T>(xs: seq<T>) {
    forall i, j :: 0 <= i < j < |xs| ==> xs[i] != xs[j]
  }

  /** The links inside a list: forwards to the terminating null, backwards except at the head. */
  ghost predicate Linked(xs: seq<Item>)
    reads xs`next, xs`prev
  {
    && (forall i {:trigger xs[i].next} :: 0 <= i < |xs| ==> xs[i].next == if i + 1 < |xs| then xs[i + 1] else null)
    && (forall i {:trigger xs[i].prev} :: 0 < i < |xs| ==> xs[i].prev == xs[i - 1])
  }

  /** The children of `p` are `xs`, in that order; where the head points back to is left open. */
  ghost predicate Strung(p: Item, xs: seq<Item>)
    reads p`child, xs`next, xs`prev
  {
    Distinct(xs) && Linked(xs) && p.child == if xs == [] then null else xs[0]
  }

  /** A whole list: the head points back to the tail. */
  ghost predicate Children(p: Item, xs: seq<Item>)
    reads p`child, xs`next, xs`prev
  {
    Strung(p, xs) && (xs != [] ==> xs[0].prev == xs[|xs| - 1])
  }

  /** A list, whole or not. */
  ghost predicate ListOf(p: Item, xs: seq<Item>, whole: bool)
    reads p`child, xs`next, xs`prev
  {
    if whole then Children(p, xs) else Strung(p, xs)
  }

  /** A list whose head points back to position `k`. It should be the last one; sorting can leave another. */
  ghost predicate Headed(p: Item, xs: seq<Item>, k: nat)
    reads p`child, xs`next, xs`prev
  {
    Strung(p, xs) && k < |xs| && xs[0].prev == xs[k]
  }

  /** A list whose head points back to nothing, which sorting can also leave. */
  ghost predicate Orphaned(p: Item, xs: seq<Item>)
    reads p`child, xs`next, xs`prev
  {
    Strung(p, xs) && xs != [] && xs[0].prev == null
  }

  /** `get_array_item`: the walk to a position. */
  method GetItem(parent: Item, index: nat, ghost xs: seq<Item>) returns (c: Item?)
    requires Strung(parent, xs)
    ensures c == if index < |xs| then xs[index] else null
  {
    c := parent.child;
    var left: nat := index;
    ghost var i := 0;
    while c != null && left > 0
      invariant i + left == index && (c == null <==> i >= |xs|) && (i < |xs| ==> c == xs[i])
    {
      c := c.next;
      left := left - 1;
      i := i + 1;
    }
  }

  /** `add_item_to_array`. The item must not have a successor, unless the list is empty. It goes behind
      the item the head points back to, so the list is cut there if that is not the last one; if the
      head points nowhere, the item is dropped. */
  method AddItem(parent: Item, item: Item, ghost xs: seq<Item>, ghost k: nat)
    requires Children(parent, xs) || Headed(parent, xs, k) || Orphaned(parent, xs)
    requires item !in xs && (xs != [] ==> item.next == null)
    modifies parent`child, item`next, item`prev, xs`next, xs`prev
    ensures old(Children(parent, xs)) ==> Children(parent, xs + [item])
    ensures old(Headed(parent, xs, k)) ==> Children(parent, xs[..k + 1] + [item])
    ensures old(Orphaned(parent, xs)) ==> Orphaned(parent, xs) && parent.child == old(parent.child)
    ensures old(Orphaned(parent, xs)) ==> forall x :: x in xs ==> x.next == old(x.next) && x.prev == old(x.prev)
  {
    var child := parent.child;
    if child == null {
      parent.child := item;
      item.prev := item;
      item.next := null;
    } else if child.prev != null {
      ghost var at := if old(Children(parent, xs)) then |xs| - 1 else k;
      child.prev.next := item;
      item.prev := child.prev;
      parent.child.prev := item;
      hide Distinct;
      AppendedChildren(parent, xs, at, item);
    }
  }

  /** Up to position `k` every link is as in the list, and `item` follows there as the last one. */
  ghost predicate Appended(xs: seq<Item>, k: nat, item: Item)
    requires k < |xs|
    reads xs`next, xs`prev, item`next, item`prev
  {
    && (forall i {:trigger xs[i].next} :: 0 <= i < k ==> xs[i].next == xs[i + 1])
    && (forall i {:trigger xs[i].prev} :: 0 < i <= k ==> xs[i].prev == xs[i - 1])
    && xs[k].next == item && item.prev == xs[k] && item.next == null
  }

  lemma AppendedChildren(parent: Item, xs: seq<Item>, k: nat, item: Item)
    requires Distinct(xs) && k < |xs| && item !in xs && Appended(xs, k, item)
    requires parent.child == xs[0] && xs[0].prev == item
    ensures Children(parent, xs[..k + 1] + [item])
    ensures k == |xs| - 1 ==> xs[..k + 1] == xs
  {
    ItemsAppended(xs, k, item);
    hide Distinct;
  }

  lemma ItemsAppended<T>(xs: seq<T>, k: nat, x: T)
    requires Distinct(xs) && k < |xs| && x !in xs
    ensures var ys := xs[..k + 1] + [x]; Distinct(ys) && ys[k + 1] == x && forall i :: 0 <= i <= k ==> ys[i] == xs[i]
  {
  }

  /** Unlinks the item at position `k`; the item ends up pointing nowhere. The head points back to the
      new last item if the last one has gone, and else where it did: to the item that has gone, if it
      was that one. */
  method DetachItemViaPointer(parent: Item, item: Item?, ghost xs: seq<Item>, ghost k: nat) returns (r: Item?)
    requires Strung(parent, xs) && item == (if k < |xs| then xs[k] else null)
    modifies parent`child, xs`next, xs`prev
    ensures r == item && (r != null ==> r.next == null && r.prev == null)
    ensures var ys := if k < |xs| then Without(xs, k) else xs;
      && Strung(parent, ys)
      && (ys != [] ==> ys[0].prev == if 0 < k == |xs| - 1 then xs[k - 1] else old(xs[0].prev))
      && (old(Children(parent, xs)) ==> Children(parent, ys))
  {
    if item == null {
      return null;
    }
    if item != parent.child {
      item.prev.next := item.next;
    }
    if item.next != null {
      item.next.prev := item.prev;
    }
    if item == parent.child {
      parent.child := item.next;
    } else if item.next == null {
      parent.child.prev := item.prev;
    }
    item.prev := null;
    item.next := null;
    BypassedStrung(parent, xs, k);
    ItemsWithout(xs, k);
    hide Distinct;
    hide Linked;
    hide Without;
    r := item;
  }

  /** Every link is as in the list, but those around position `k` go past it. */
  ghost predicate Bypassed(xs: seq<Item>, k: nat)
    requires k < |xs|
    reads xs`next, xs`prev
  {
    && (forall i {:trigger xs[i].next} :: 0 <= i < |xs| && i != k && i + 1 != k ==>
         xs[i].next == if i + 1 < |xs| then xs[i + 1] else null)
    && (k > 0 ==> xs[k - 1].next == if k + 1 < |xs| then xs[k + 1] else null)
    && (forall i {:trigger xs[i].prev} :: 0 < i < |xs| && i != k && i != k + 1 ==> xs[i].prev == xs[i - 1])
    && (0 < k < |xs| - 1 ==> xs[k + 1].prev == xs[k - 1])
  }

  lemma BypassedStrung(parent: Item, xs: seq<Item>, k: nat)
    requires Distinct(xs) && k < |xs| && Bypassed(xs, k)
    requires parent.child == if k > 0 then xs[0] else if |xs| > 1 then xs[1] else null
    ensures Strung(parent, Without(xs, k))
  {
    ItemsWithout(xs, k);
    hide Without;
    hide Distinct;
  }

  lemma ItemsWithout<T>(xs: seq<T>, k: nat)
    requires Distinct(xs) && k < |xs|
    ensures var ys := Without(xs, k);
      && Distinct(ys) && |ys| == |xs| - 1
      && (forall i :: 0 <= i < k ==> ys[i] == xs[i] && xs[i] != xs[k])
      && (forall i :: k <= i < |ys| ==> ys[i] == xs[i + 1] && xs[i + 1] != xs[k])
  {
  }

  /** `cJSON_DetachItemFromArray`, and `detach_item_from_array` of the patch code. */
  method DetachItem(parent: Item, which: int, ghost xs: seq<Item>) returns (r: Item?)
    requires Strung(parent, xs)
    modifies parent`child, xs`next, xs`prev
    ensures 0 <= which < |xs| ==>
      r == xs[which] && r.next == null && r.prev == null && Strung(parent, Without(xs, which))
    ensures 0 <= which < |xs| && old(Children(parent, xs)) ==> Children(parent, Without(xs, which))
    ensures !(0 <= which < |xs|) ==>
      r == null && Strung(parent, xs) && (old(Children(parent, xs)) ==> Children(parent, xs))
  {
    if which < 0 {
      return null;
    }
    var item := GetItem(parent, which, xs);
    r := DetachItemViaPointer(parent, item, xs, which);
  }

  function Inserted<T>(xs: seq<T>, k: nat, x: T): seq<T>
    requires k <= |xs|
  {
    xs[..k] + [x] + xs[k..]
  }

  /** Links `item` in front of the item at position `k`. */
  method LinkBefore(parent: Item, after: Item, item: Item, ghost xs: seq<Item>, ghost k: nat)
    requires Strung(parent, xs) && k < |xs| && after == xs[k] && item !in xs
    modifies parent`child, item`next, item`prev, xs`next, xs`prev
    ensures var ys := Inserted(xs, k, item);
      && Strung(parent, ys) && ys[0].prev == old(xs[0].prev)
      && (old(Children(parent, xs)) ==> Children(parent, ys))
  {
    item.next := after;
    item.prev := after.prev;
    after.prev := item;
    if after == parent.child {
      parent.child := item;
    } else {
      item.prev.next := item;
    }
    SplicedLinked(xs, k, item);
  }

  /** Every link is as in the list, but those around position `k` go through `item`. */
  ghost predicate Spliced(xs: seq<Item>, k: nat, item: Item)
    requires k < |xs|
    reads xs`next, xs`prev, item`next, item`prev
  {
    && (forall i {:trigger xs[i].next} :: 0 <= i < |xs| && i + 1 != k ==>
         xs[i].next == if i + 1 < |xs| then xs[i + 1] else null)
    && (forall i {:trigger xs[i].prev} :: 0 < i < |xs| && i != k ==> xs[i].prev == xs[i - 1])
    && item.next == xs[k] && xs[k].prev == item
    && (k > 0 ==> xs[k - 1].next == item && item.prev == xs[k - 1])
  }

  lemma SplicedLinked(xs: seq<Item>, k: nat, item: Item)
    requires Distinct(xs) && k < |xs| && item !in xs && Spliced(xs, k, item)
    ensures var ys := Inserted(xs, k, item);
      Distinct(ys) && Linked(ys) && |ys| == |xs| + 1 && ys[0] == (if k == 0 then item else xs[0])
        && ys[|ys| - 1] == xs[|xs| - 1]
  {
    ItemsInserted(xs, k, item);
    hide Inserted;
    hide Distinct;
  }

  lemma ItemsInserted<T>(xs: seq<T>, k: nat, x: T)
    requires Distinct(xs) && k <= |xs| && x !in xs
    ensures var ys := Inserted(xs, k, x);
      && Distinct(ys) && |ys| == |xs| + 1 && ys[k] == x
      && (forall i :: 0 <= i < k ==> ys[i] == xs[i])
      && (forall i :: k < i < |ys| ==> ys[i] == xs[i - 1])
  {
  }

  /** What adding at the end makes of a list, whole or not. */
  ghost predicate Added(p: Item, item: Item, xs: seq<Item>, k: nat, whole: bool, orphaned: bool)
    reads p`child, item`next, item`prev, xs`next, xs`prev
  {
    && (whole ==> Children(p, xs + [item]))
    && (orphaned ==> Orphaned(p, xs))
    && (!whole && !orphaned ==> k < |xs| && Children(p, xs[..k + 1] + [item]))
  }

  /** `cJSON_InsertItemInArray`: past the end it appends; the test for a corrupted list never fires. */
  method InsertItem(parent: Item, which: int, item: Item, ghost xs: seq<Item>, ghost k: nat) returns (ok: bool)
    requires Children(parent, xs) || Headed(parent, xs, k) || Orphaned(parent, xs)
    requires item !in xs && (xs != [] && which >= |xs| ==> item.next == null)
    modifies parent`child, item`next, item`prev, xs`next, xs`prev
    ensures ok <==> which >= 0
    ensures which < 0 ==> Strung(parent, xs) && (old(Children(parent, xs)) ==> Children(parent, xs))
    ensures 0 <= which < |xs| ==>
      var ys := Inserted(xs, which, item);
      && Strung(parent, ys) && ys[0].prev == old(xs[0].prev)
      && (old(Children(parent, xs)) ==> Children(parent, ys))
    ensures which >= |xs| ==> Added(parent, item, xs, k, old(Children(parent, xs)), old(Orphaned(parent, xs)))
  {
    if which < 0 {
      return false;
    }
    var after := GetItem(parent, which, xs);
    if after == null {
      AddItem(parent, item, xs, k);
      return true;
    }
    if after != parent.child && after.prev == null {
      return false;
    }
    LinkBefore(parent, after, item, xs, which);
    ok := true;
  }

  /** `insert_item_in_array` of the patch code: past the end it refuses. */
  method InsertItemStrict(parent: Item, which: nat, item: Item, ghost xs: seq<Item>, ghost k: nat) returns (ok: bool)
    requires Children(parent, xs) || Headed(parent, xs, k) || Orphaned(parent, xs)
    requires item !in xs && (xs != [] && which == |xs| ==> item.next == null)
    modifies parent`child, item`next, item`prev, xs`next, xs`prev
    ensures ok <==> which <= |xs|
    ensures !ok ==> Strung(parent, xs) && (old(Children(parent, xs)) ==> Children(parent, xs))
    ensures ok && old(Children(parent, xs)) ==> Children(parent, Inserted(xs, which, item))
    ensures which < |xs| ==>
      var ys := Inserted(xs, which, item);
      Strung(parent, ys) && ys[0].prev == old(xs[0].prev)
    ensures which == |xs| ==> Added(parent, item, xs, k, old(Children(parent, xs)), old(Orphaned(parent, xs)))
  {
    var child, left: nat := parent.child, which;
    ghost var i := 0;
    while child != null && left > 0
      invariant i + left == which && i <= |xs| && child == if i < |xs| then xs[i] else null
    {
      child := child.next;
      left := left - 1;
      i := i + 1;
    }
    if left > 0 {
      return false;
    }
    if child == null {
      AddItem(parent, item, xs, k);
      assert Inserted(xs, which, item) == xs + [item];
      return true;
    }
    LinkBefore(parent, child, item, xs, which);
    ok := true;
  }

  /** `cJSON_ReplaceItemViaPointer`: the new item takes the place of the one at position `k`. The head
      points back to it if it is the last one, or the only one; else where it did, even to the old item. */
  method ReplaceItem(parent: Item, item: Item, replacement: Item, ghost xs: seq<Item>, ghost k: nat) returns (ok: bool)
    requires Strung(parent, xs) && k < |xs| && item == xs[k] && (replacement == item || replacement !in xs)
    modifies parent`child, replacement`next, replacement`prev, xs`next, xs`prev
    ensures ok
    ensures var ys := xs[k := replacement];
      && Strung(parent, ys) && (old(Children(parent, xs)) ==> Children(parent, ys))
      && (replacement != item ==>
        item.next == null && item.prev == null
        && ys[0].prev ==
           if 0 < k == |xs| - 1 || (k == 0 && old(xs[0].prev) == item) then replacement else old(xs[0].prev))
  {
    if replacement == item {
      assert xs[k := item] == xs;
      return true;
    }
    replacement.next := item.next;
    replacement.prev := item.prev;
    if replacement.next != null {
      replacement.next.prev := replacement;
    }
    if parent.child == item {
      if parent.child.prev == parent.child {
        replacement.prev := replacement;
      }
      parent.child := replacement;
    } else {
      if replacement.prev != null {
        replacement.prev.next := replacement;
      }
      if replacement.next == null {
        parent.child.prev := replacement;
      }
    }
    item.next := null;
    item.prev := null;
    hide Distinct;
    ReplacedStrung(parent, xs, k, replacement);
    ok := true;
  }

  /** Every link is as in the list, but those at position `k` are taken over by `item`. */
  ghost predicate TakenOver(xs: seq<Item>, k: nat, item: Item)
    requires k < |xs|
    reads xs`next, xs`prev, item`next, item`prev
  {
    && (forall i {:trigger xs[i].next} :: 0 <= i < |xs| && i != k && i + 1 != k ==>
         xs[i].next == if i + 1 < |xs| then xs[i + 1] else null)
    && (forall i {:trigger xs[i].prev} :: 0 < i < |xs| && i != k && i != k + 1 ==> xs[i].prev == xs[i - 1])
    && item.next == (if k + 1 < |xs| then xs[k + 1] else null)
    && (k + 1 < |xs| ==> xs[k + 1].prev == item)
    && (k > 0 ==> xs[k - 1].next == item && item.prev == xs[k - 1])
  }

  lemma ReplacedStrung(parent: Item, xs: seq<Item>, k: nat, item: Item)
    requires Distinct(xs) && k < |xs| && item !in xs && TakenOver(xs, k, item)
    requires parent.child == if k == 0 then item else xs[0]
    ensures Strung(parent, xs[k := item])
  {
    ItemsReplaced(xs, k, item);
    hide Distinct;
  }

  lemma ItemsReplaced<T>(xs: seq<T>, k: nat, x: T)
    requires Distinct(xs) && k < |xs| && x !in xs
    ensures Distinct(xs[k := x]) && forall i :: 0 <= i < |xs| && i != k ==> xs[i] != xs[k] && xs[i] != x
  {
  }

  /** Detaching what has been inserted gives the list back. */
  lemma DetachUndoesInsert<T>(xs: seq<T>, k: nat, x: T)
    requires k <= |xs|
    ensures Without(Inserted(xs, k, x), k) == xs
  {
    var ys := Inserted(xs, k, x);
    assert ys[..k] == xs[..k] && ys[k + 1..] == xs[k..];
  }

  // ---- lists as the parser and the copier build them ----

  /** A list under construction: linked, with the head's `prev` not yet set. */
  ghost predicate Growing(head: Item?, last: Item?, xs: seq<Item>)
    reads xs`next, xs`prev
  {
    && Distinct(xs) && Linked(xs)
    && (if xs == [] then head == null && last == null else head == xs[0] && last == xs[|xs| - 1])
  }

  /** A new item behind the last one. */
  method Grow(head: Item?, last: Item?, item: Item, ghost xs: seq<Item>) returns (head': Item)
    requires Growing(head, last, xs) && item !in xs && item.next == null
    modifies item`prev, xs`next
    ensures Growing(head', item, xs + [item])
  {
    if head == null {
      head' := item;
    } else {
      last.next := item;
      item.prev := last;
      head' := head;
    }
  }

  /** What `parse_array`, `parse_object` and `cJSON_Duplicate` do at the end of a list. */
  method Finish(parent: Item, head: Item?, last: Item?, ghost xs: seq<Item>)
    requires Growing(head, last, xs)
    modifies parent`child, xs`prev
    ensures Children(parent, xs)
  {
    if head != null {
      head.prev := last;
    }
    parent.child := head;
  }
}
