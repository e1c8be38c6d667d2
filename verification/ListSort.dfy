/** `sort_list` on linked items: it splits and re-links the list in place, and the order it ends up in is
    the one the function `SortList` of `Sorting` gives. The head's `prev` is not restored. */
module ListSort {
  import opened Text
  import opened Json
  import opened Sorting
  import opened SiblingList

  /** Every item is a member of an object: it has a name. */
  ghost predicate Named(xs: seq<Item>)
    reads xs`name
  {
    forall i {:trigger xs[i].name} :: 0 <= i < |xs| ==> xs[i].name.Some? && NulFree(xs[i].name.value)
  }

  /** The items with their names. */
  ghost function Tags(xs: seq<Item>): (ms: seq<Member<Item>>)
    requires Named(xs)
    reads xs`name
    ensures |ms| == |xs| && forall i :: 0 <= i < |xs| ==> ms[i] == Member(xs[i].name.value, xs[i])
  {
    if xs == [] then [] else
      assert forall i :: 0 <= i < |xs| - 1 ==> xs[1..][i] == xs[i + 1];
      [Member(xs[0].name.value, xs[0])] + Tags(xs[1..])
  }

  /** Linked but for the `next` of the last item. */
  ghost predicate Partial(xs: seq<Item>)
    reads xs`next, xs`prev
  {
    && (forall i {:trigger xs[i].next} :: 0 <= i < |xs| - 1 ==> xs[i].next == xs[i + 1])
    && (forall i {:trigger xs[i].prev} :: 0 < i < |xs| ==> xs[i].prev == xs[i - 1])
  }

  ghost function First(xs: seq<Item>): Item? {
    if xs == [] then null else xs[0]
  }

  lemma TagsConcat(xs: seq<Item>, ys: seq<Item>)
    requires Named(xs) && Named(ys)
    ensures Named(xs + ys) && Tags(xs + ys) == Tags(xs) + Tags(ys)
  {
    var zs := xs + ys;
    assert forall i :: 0 <= i < |zs| ==> zs[i] == if i < |xs| then xs[i] else ys[i - |xs|];
  }

  lemma TagsSplit(xs: seq<Item>, h: nat)
    requires Named(xs) && h <= |xs|
    ensures Named(xs[..h]) && Named(xs[h..])
    ensures Tags(xs[..h]) == Tags(xs)[..h] && Tags(xs[h..]) == Tags(xs)[h..]
  {
    var a, b := xs[..h], xs[h..];
    NamedPart(xs, 0, h);
    NamedPart(xs, h, |xs|);
    assert a == xs[0..h] && b == xs[h..|xs|];
    Halves(xs, h);
    TagsConcat(a, b);
    hide Tags;
    hide Named;
    Parts(Tags(a), Tags(b));
  }

  lemma Halves<T>(xs: seq<T>, h: nat)
    requires h <= |xs|
    ensures xs == xs[..h] + xs[h..]
  {
  }

  lemma Parts<T>(a: seq<T>, b: seq<T>)
    ensures (a + b)[..|a|] == a && (a + b)[|a|..] == b
  {
  }

  lemma NamedPart(xs: seq<Item>, i: nat, j: nat)
    requires Named(xs) && i <= j <= |xs|
    ensures Named(xs[i..j])
  {
    assert forall k :: 0 <= k < j - i ==> xs[i..j][k] == xs[i + k];
  }

  // ---- the sorted test and the middle ----

  /** The walk that stops at the first pair that is not strictly ascending. */
  method IsAscending(list: Item, cs: bool, ghost xs: seq<Item>) returns (sorted: bool)
    requires xs != [] && list == xs[0] && Linked(xs) && Named(xs)
    ensures sorted == Ascending(Tags(xs), cs)
  {
    var current := list;
    ghost var i := 0;
    assert Tags(xs)[0..] == Tags(xs);
    while true
      invariant i < |xs| && current == xs[i]
      invariant Ascending(Tags(xs), cs) == Ascending(Tags(xs)[i..], cs)
      decreases |xs| - i
    {
      assert Tags(xs)[i..][1..] == Tags(xs)[i + 1..];
      if current.next == null {
        return true;
      }
      var order := CompareStrings(current.name.value, current.next.name.value, cs);
      if order >= 0 {
        return false;
      }
      current := current.next;
      i := i + 1;
    }
  }

  /** Two cursors, one at double speed. */
  method FindMiddle(list: Item, ghost xs: seq<Item>) returns (second: Item)
    requires |xs| >= 2 && list == xs[0] && Linked(xs)
    ensures second == xs[Middle(|xs|)]
  {
    var slow: Item?, current: Item? := list, list;
    ghost var i := 0;
    while current != null
      invariant 0 <= i <= Middle(|xs|) && slow == xs[i]
      invariant current == if 2 * i < |xs| then xs[2 * i] else null
      decreases |xs| - i
    {
      slow := slow.next;
      current := current.next;
      if current != null {
        current := current.next;
      }
      i := i + 1;
    }
    second := slow;
  }

  /** The two halves become lists of their own. */
  method Split(second: Item, ghost xs: seq<Item>, ghost h: nat)
    requires 0 < h < |xs| && second == xs[h] && Linked(xs) && Distinct(xs)
    modifies xs`next, xs`prev
    ensures Linked(xs[..h]) && Linked(xs[h..]) && second.prev == null && xs[0].prev == old(xs[0].prev)
  {
    if second.prev != null {
      second.prev.next := null;
      second.prev := null;
    }
  }

  // ---- merging ----

  /** The merged list `rs` so far, and what is left of the two lists. */
  ghost predicate Merging(rs: seq<Item>, fs: seq<Item>, ss: seq<Item>)
    reads rs`next, fs`next, ss`next, rs`prev, fs`prev, ss`prev
  {
    Partial(rs) && Linked(fs) && Linked(ss) && Distinct(rs) && Distinct(fs) && Distinct(ss) && Apart(rs, fs)
      && Apart(rs, ss) && Apart(fs, ss)
  }

  ghost predicate Apart(xs: seq<Item>, ys: seq<Item>) {
    forall i, j :: 0 <= i < |xs| && 0 <= j < |ys| ==> xs[i] != ys[j]
  }

  /** The smaller item goes behind the merged ones; its own successor is still needed. */
  method Append(tail: Item?, item: Item, ghost rs: seq<Item>, ghost fs: seq<Item>, ghost ss: seq<Item>)
    requires Merging(rs, fs, ss) && fs != [] && item == fs[0] && tail == if rs == [] then null else rs[|rs| - 1]
    modifies item`prev, rs`next
    ensures Merging(rs + [item], fs[1..], ss) && item.next == First(fs[1..])
    ensures (rs + [item])[0].prev == old((rs + [item])[0].prev)
  {
    if tail != null {
      tail.next := item;
      item.prev := tail;
    }
  }

  /** The rest of one list goes behind the merged ones. */
  method AppendRest(tail: Item, item: Item, ghost rs: seq<Item>, ghost fs: seq<Item>)
    requires Merging(rs, fs, []) && fs != [] && item == fs[0] && rs != [] && tail == rs[|rs| - 1]
    modifies item`prev, rs`next
    ensures Linked(rs + fs) && Distinct(rs + fs) && rs[0].prev == old(rs[0].prev)
  {
    tail.next := item;
    item.prev := tail;
  }

  /** What the merge will end with: the merged items and the merge of the rest. */
  ghost function Goal(rs: seq<Item>, fs: seq<Item>, ss: seq<Item>, cs: bool): seq<Member<Item>>
    requires Named(rs) && Named(fs) && Named(ss)
    reads rs`name, fs`name, ss`name
  {
    Tags(rs) + MergeLists(Tags(fs), Tags(ss), cs)
  }

  lemma TagsRest(xs: seq<Item>)
    requires Named(xs) && xs != []
    ensures Named(xs[1..]) && Tags(xs)[1..] == Tags(xs[1..]) && Tags(xs)[0] == Member(xs[0].name.value, xs[0])
    ensures Named([xs[0]]) && Tags([xs[0]]) == [Member(xs[0].name.value, xs[0])]
  {
    TagsSplit(xs, 1);
  }

  /** Taking the first item of the first list. */
  lemma GoalFirst(rs: seq<Item>, fs: seq<Item>, ss: seq<Item>, cs: bool)
    requires Named(rs) && Named(fs) && Named(ss) && fs != [] && ss != []
    requires KeyLess(fs[0].name.value, ss[0].name.value, cs)
    ensures Named(rs + [fs[0]]) && Named(fs[1..]) && Goal(rs + [fs[0]], fs[1..], ss, cs) == Goal(rs, fs, ss, cs)
  {
    hide KeyLess;
    TagsRest(fs);
    TagsConcat(rs, [fs[0]]);
    var rest := MergeLists(Tags(fs[1..]), Tags(ss), cs);
    assert MergeLists(Tags(fs), Tags(ss), cs) == [Tags(fs)[0]] + rest;
    hide Tags;
    hide MergeLists;
    assert Tags(rs) + ([Tags(fs)[0]] + rest) == (Tags(rs) + [Tags(fs)[0]]) + rest;
  }

  /** Taking the first item of the second list. */
  lemma GoalSecond(rs: seq<Item>, fs: seq<Item>, ss: seq<Item>, cs: bool)
    requires Named(rs) && Named(fs) && Named(ss) && fs != [] && ss != []
    requires !KeyLess(fs[0].name.value, ss[0].name.value, cs)
    ensures Named(rs + [ss[0]]) && Named(ss[1..]) && Goal(rs + [ss[0]], fs, ss[1..], cs) == Goal(rs, fs, ss, cs)
  {
    hide KeyLess;
    TagsRest(ss);
    TagsConcat(rs, [ss[0]]);
    var rest := MergeLists(Tags(fs), Tags(ss[1..]), cs);
    assert MergeLists(Tags(fs), Tags(ss), cs) == [Tags(ss)[0]] + rest;
    hide Tags;
    hide MergeLists;
    assert Tags(rs) + ([Tags(ss)[0]] + rest) == (Tags(rs) + [Tags(ss)[0]]) + rest;
  }

  lemma GoalRest(rs: seq<Item>, fs: seq<Item>, ss: seq<Item>, cs: bool)
    requires Named(rs) && Named(fs) && Named(ss) && (fs == [] || ss == [])
    ensures Named(rs + (if fs == [] then ss else fs))
      && Tags(rs + (if fs == [] then ss else fs)) == Goal(rs, fs, ss, cs)
  {
    TagsConcat(rs, if fs == [] then ss else fs);
  }

  ghost predicate Within(xs: seq<Item>, all: seq<Item>) {
    forall i :: 0 <= i < |xs| ==> xs[i] in all
  }

  /** The cursors stand on the lists they belong to. */
  ghost predicate Cursors(first: Item?, second: Item?, result: Item?, tail: Item?, rs: seq<Item>, fs: seq<Item>,
      ss: seq<Item>) {
    && first == First(fs) && second == First(ss) && result == First(rs)
    && tail == if rs == [] then null else rs[|rs| - 1]
  }

  lemma SwapLists(rs: seq<Item>, fs: seq<Item>, ss: seq<Item>)
    requires Merging(rs, fs, ss)
    ensures Merging(rs, ss, fs)
  {
  }

  lemma NamedHead(xs: seq<Item>)
    requires Named(xs) && xs != []
    ensures xs[0].name.Some? && NulFree(xs[0].name.value)
  {
  }

  /** One item went from the front of a list to the end of the merged one. */
  ghost predicate Took(rs: seq<Item>, fs: seq<Item>, ss: seq<Item>, rs': seq<Item>, fs': seq<Item>, ss': seq<Item>) {
    || (fs != [] && rs' == rs + [fs[0]] && fs' == fs[1..] && ss' == ss)
    || (ss != [] && rs' == rs + [ss[0]] && fs' == fs && ss' == ss[1..])
  }

  lemma TookWithin(rs: seq<Item>, fs: seq<Item>, ss: seq<Item>, rs': seq<Item>, fs': seq<Item>, ss': seq<Item>,
      all: seq<Item>)
    requires Took(rs, fs, ss, rs', fs', ss') && fs != [] && ss != [] && Within(rs, all) && Within(fs, all)
      && Within(ss, all)
    ensures Within(rs', all) && Within(fs', all) && Within(ss', all)
    ensures rs' != [] && |fs'| + |ss'| < |fs| + |ss| && (fs' != [] || ss' != [])
  {
  }

  /** One round of the merge loop. */
  method MergeRound(first: Item, second: Item, result: Item?, tail: Item?, cs: bool,
                    ghost rs: seq<Item>, ghost fs: seq<Item>, ghost ss: seq<Item>)
    returns (first': Item?, second': Item?, result': Item?, tail': Item?,
             ghost rs': seq<Item>, ghost fs': seq<Item>, ghost ss': seq<Item>)
    requires Merging(rs, fs, ss) && fs != [] && ss != [] && Cursors(first, second, result, tail, rs, fs, ss)
    requires Named(rs) && Named(fs) && Named(ss)
    modifies fs`prev, ss`prev, rs`next
    ensures Merging(rs', fs', ss') && Cursors(first', second', result', tail', rs', fs', ss') && rs' != []
    ensures Named(rs') && Named(fs') && Named(ss') && Goal(rs', fs', ss', cs) == old(Goal(rs, fs, ss, cs))
    ensures Took(rs, fs, ss, rs', fs', ss')
    ensures result' != null && result'.prev == old(result'.prev)
    ensures if result == null then result' == first || result' == second else result' == result
  {
    hide Merging;
    hide Goal;
    hide Named;
    hide Tags;
    hide MergeLists;
    hide Distinct;
    NamedHead(fs);
    NamedHead(ss);
    var order := CompareStrings(first.name.value, second.name.value, cs);
    if order < 0 {
      GoalFirst(rs, fs, ss, cs);
      Append(tail, first, rs, fs, ss);
      rs', fs', ss' := rs + [first], fs[1..], ss;
      first', second', tail' := first.next, second, first;
    } else {
      GoalSecond(rs, fs, ss, cs);
      SwapLists(rs, fs, ss);
      Append(tail, second, rs, ss, fs);
      SwapLists(rs + [second], ss[1..], fs);
      rs', fs', ss' := rs + [second], fs, ss[1..];
      first', second', tail' := first, second.next, second;
    }
    result' := if result == null then tail' else result;
  }

  /** The merge of two lists. */
  method Merge(a0: Item?, b0: Item?, cs: bool, ghost a: seq<Item>, ghost b: seq<Item>) returns (result: Item?,
      ghost ys: seq<Item>)
    requires Merging([], a, b) && a != [] && b != [] && a0 == a[0] && b0 == b[0] && Named(a) && Named(b)
    modifies (a + b)`next, (a + b)`prev
    ensures Linked(ys) && Distinct(ys) && result == First(ys) && Named(ys) && Within(ys, a + b)
    ensures Tags(ys) == old(MergeLists(Tags(a), Tags(b), cs))
    ensures result != null && (result == a0 || result == b0) && result.prev == old(result.prev)
  {
    hide Merging;
    hide Goal;
    hide Named;
    var first, second, tail: Item? := a0, b0, null;
    ghost var rs, fs, ss := [], a, b;
    ghost var goal := MergeLists(Tags(a), Tags(b), cs);
    result := null;
    NothingMerged(a, b, cs);
    while first != null && second != null
      invariant Merging(rs, fs, ss) && Cursors(first, second, result, tail, rs, fs, ss)
      invariant Named(rs) && Named(fs) && Named(ss) && Goal(rs, fs, ss, cs) == goal
      invariant Within(rs, a + b) && Within(fs, a + b) && Within(ss, a + b)
      invariant rs == [] ==> fs == a && ss == b
      invariant result == null ==> a0.prev == old(a0.prev) && b0.prev == old(b0.prev)
      invariant result != null ==> (result == a0 || result == b0) && result.prev == old(result.prev)
      invariant fs != [] || ss != []
      decreases |fs| + |ss|
    {
      ghost var rs0, fs0, ss0 := rs, fs, ss;
      first, second, result, tail, rs, fs, ss := MergeRound(first, second, result, tail, cs, rs, fs, ss);
      TookWithin(rs0, fs0, ss0, rs, fs, ss, a + b);
    }
    ys := MergeEnd(first, second, result, tail, cs, rs, fs, ss);
    WithinRest(rs, fs, ss, a + b);
  }

  /** What is left of one list goes behind the merged items. */
  method MergeEnd(first: Item?, second: Item?, result: Item?, tail: Item?, cs: bool,
                  ghost rs: seq<Item>, ghost fs: seq<Item>, ghost ss: seq<Item>) returns (ghost ys: seq<Item>)
    requires Merging(rs, fs, ss) && Cursors(first, second, result, tail, rs, fs, ss)
    requires rs != [] && (fs == [] <==> ss != []) && Named(rs) && Named(fs) && Named(ss)
    modifies fs`prev, ss`prev, rs`next
    ensures ys == rs + (if fs == [] then ss else fs) && result != null && result.prev == old(result.prev)
    ensures Linked(ys) && Distinct(ys) && Named(ys) && Tags(ys) == old(Goal(rs, fs, ss, cs))
  {
    hide Merging;
    hide Goal;
    hide Named;
    GoalRest(rs, fs, ss, cs);
    if first != null {
      ys := rs + fs;
      AppendRest(tail, first, rs, fs);
    }
    if second != null {
      SwapLists(rs, fs, ss);
      ys := rs + ss;
      AppendRest(tail, second, rs, ss);
    }
  }

  lemma WithinRest(rs: seq<Item>, fs: seq<Item>, ss: seq<Item>, all: seq<Item>)
    requires Within(rs, all) && Within(fs, all) && Within(ss, all)
    ensures Within(rs + (if fs == [] then ss else fs), all)
  {
  }

  lemma NothingMerged(a: seq<Item>, b: seq<Item>, cs: bool)
    requires Named(a) && Named(b)
    ensures Named([]) && Goal([], a, b, cs) == MergeLists(Tags(a), Tags(b), cs)
    ensures Within([], a + b) && Within(a, a + b) && Within(b, a + b)
  {
    assert Tags([]) == [];
  }

  // ---- sorting ----

  /** `sort_list`: the list is left alone if it is strictly ascending; otherwise its halves are sorted and merged. */
  method SortItems(list: Item?, cs: bool, ghost xs: seq<Item>) returns (result: Item?, ghost ys: seq<Item>)
    requires Linked(xs) && Distinct(xs) && list == First(xs) && Named(xs)
    modifies xs`next, xs`prev
    ensures Linked(ys) && Distinct(ys) && result == First(ys) && Named(ys) && Within(ys, xs)
    ensures Tags(ys) == old(Sorting.SortList(Tags(xs), cs))
    ensures list != null ==> result != null && result.prev == if result == list then old(list.prev) else null
    decreases |xs|, 5
  {
    if list == null || list.next == null {
      ShortStays(Tags(xs), cs);
      return list, xs;
    }
    var sorted := IsAscending(list, cs, xs);
    if sorted {
      SortedStays(Tags(xs), cs);
      return list, xs;
    }
    result, ys := SortUnsorted(list, cs, xs);
  }

  /** The halves as sequences. */
  method SortUnsorted(list: Item, cs: bool, ghost xs: seq<Item>) returns (result: Item?, ghost ys: seq<Item>)
    requires Linked(xs) && Distinct(xs) && |xs| >= 2 && list == xs[0] && Named(xs) && !Ascending(Tags(xs), cs)
    modifies xs`next, xs`prev
    ensures Linked(ys) && Distinct(ys) && result == First(ys) && Named(ys) && Within(ys, xs)
    ensures Tags(ys) == old(Sorting.SortList(Tags(xs), cs))
    ensures result != null && result.prev == if result == list then old(list.prev) else null
    decreases |xs|, 4
  {
    ghost var a, b := xs[..Middle(|xs|)], xs[Middle(|xs|)..];
    Halves(xs, Middle(|xs|));
    SortSplits(xs, cs);
    HalvesApart(xs, Middle(|xs|));
    hide Linked;
    hide Distinct;
    hide Apart;
    hide Named;
    hide Tags;
    hide Sorting.SortList;
    hide MergeLists;
    hide Within;
    hide Ascending;
    result, ys := SortHalves(list, cs, a, b);
  }

  lemma ShortStays<T>(ms: seq<Member<T>>, cs: bool)
    requires |ms| <= 1
    ensures Sorting.SortList(ms, cs) == ms
  {
  }

  /** Splitting, sorting both halves, merging. */
  method SortHalves(list: Item, cs: bool, ghost a: seq<Item>, ghost b: seq<Item>) returns (result: Item?,
      ghost ys: seq<Item>)
    requires a != [] && b != [] && |a| == Middle(|a + b|) && list == a[0]
    requires Linked(a + b) && Distinct(a + b) && Distinct(a) && Distinct(b) && Apart(a, b) && Named(a) && Named(b)
    modifies (a + b)`next, (a + b)`prev
    ensures Linked(ys) && Distinct(ys) && result == First(ys) && Named(ys) && Within(ys, a + b)
    ensures Tags(ys) == old(MergeLists(Sorting.SortList(Tags(a), cs), Sorting.SortList(Tags(b), cs), cs))
    ensures result != null && result.prev == if result == list then old(list.prev) else null
    decreases |a| + |b|, 3
  {
    hide Linked;
    hide Distinct;
    hide Apart;
    hide Named;
    hide Tags;
    hide Sorting.SortList;
    hide MergeLists;
    hide Within;
    var second := Halve(list, a, b);
    result, ys := SortBoth(list, second, cs, a, b);
  }

  /** The middle is found and the list cut there. */
  method Halve(list: Item, ghost a: seq<Item>, ghost b: seq<Item>) returns (second: Item)
    requires a != [] && b != [] && |a| == Middle(|a + b|) && list == a[0] && Linked(a + b) && Distinct(a + b)
    modifies (a + b)`next, (a + b)`prev
    ensures second == b[0] && Linked(a) && Linked(b) && second.prev == null && list.prev == old(list.prev)
  {
    second := FindMiddle(list, a + b);
    Split(second, a + b, |a|);
    assert (a + b)[..|a|] == a && (a + b)[|a|..] == b;
  }

  lemma SortSplits(xs: seq<Item>, cs: bool)
    requires Named(xs) && |xs| >= 2 && !Ascending(Tags(xs), cs)
    ensures Named(xs[..Middle(|xs|)]) && Named(xs[Middle(|xs|)..])
    ensures var h := Middle(|xs|);
      var a, b := Sorting.SortList(Tags(xs[..h]), cs), Sorting.SortList(Tags(xs[h..]), cs);
      Sorting.SortList(Tags(xs), cs) == MergeLists(a, b, cs)
  {
    TagsSplit(xs, Middle(|xs|));
  }

  lemma HalvesApart(xs: seq<Item>, h: nat)
    requires Distinct(xs) && h <= |xs|
    ensures Distinct(xs[..h]) && Distinct(xs[h..]) && Apart(xs[..h], xs[h..])
    ensures Within(xs[..h], xs) && Within(xs[h..], xs)
  {
  }

  lemma WithinHalves(ys: seq<Item>, as': seq<Item>, bs': seq<Item>, a: seq<Item>, b: seq<Item>)
    requires Within(ys, as' + bs') && Within(as', a) && Within(bs', b)
    ensures Within(ys, a + b)
  {
  }

  lemma ApartWithin(a: seq<Item>, b: seq<Item>, as': seq<Item>, bs': seq<Item>)
    requires Apart(a, b) && Within(as', a) && Within(bs', b)
    ensures Apart(as', bs')
    ensures forall i :: 0 <= i < |as' + bs'| ==> (as' + bs')[i] in a + b
  {
    assert forall x :: x in a || x in b ==> x in a + b;
  }

  /** Two lists without common items are sorted and merged. */
  method SortBoth(first: Item, second: Item, cs: bool, ghost a: seq<Item>, ghost b: seq<Item>)
    returns (result: Item?, ghost ys: seq<Item>)
    requires Linked(a) && Linked(b) && Distinct(a) && Distinct(b) && Apart(a, b) && Named(a) && Named(b)
    requires a != [] && b != [] && first == a[0] && second == b[0] && second.prev == null
    modifies (a + b)`next, (a + b)`prev
    ensures Linked(ys) && Distinct(ys) && result == First(ys) && Named(ys) && Within(ys, a + b)
    ensures Tags(ys) == old(MergeLists(Sorting.SortList(Tags(a), cs), Sorting.SortList(Tags(b), cs), cs))
    ensures result != null && result.prev == if result == first then old(first.prev) else null
    decreases |a| + |b|, 2
  {
    var fst, snd;
    ghost var as', bs';
    fst, snd, as', bs' := SortEach(first, second, cs, a, b);
    hide Linked;
    hide Distinct;
    hide Named;
    hide Tags;
    hide Sorting.SortList;
    hide MergeLists;
    ApartWithin(a, b, as', bs');
    hide Apart;
    hide Merging;
    hide Within;
    result, ys := Merge(fst, snd, cs, as', bs');
    WithinHalves(ys, as', bs', a, b);
  }

  method SortEach(first: Item, second: Item, cs: bool, ghost a: seq<Item>, ghost b: seq<Item>)
    returns (fst: Item, snd: Item, ghost as': seq<Item>, ghost bs': seq<Item>)
    requires Linked(a) && Linked(b) && Distinct(a) && Distinct(b) && Apart(a, b) && Named(a) && Named(b)
    requires a != [] && b != [] && first == a[0] && second == b[0] && second.prev == null
    modifies (a + b)`next, (a + b)`prev
    ensures Merging([], as', bs') && as' != [] && bs' != [] && fst == as'[0] && snd == bs'[0]
    ensures Named(as') && Named(bs') && Within(as', a) && Within(bs', b)
    ensures Tags(as') == old(Sorting.SortList(Tags(a), cs)) && Tags(bs') == old(Sorting.SortList(Tags(b), cs))
    ensures snd.prev == null && fst.prev == if fst == first then old(first.prev) else null
    decreases |a| + |b|, 1
  {
    hide Sorting.SortList;
    var r1, r2;
    assert forall i :: 0 <= i < |a| ==> (a + b)[i] == a[i];
    assert forall i :: 0 <= i < |b| ==> (a + b)[|a| + i] == b[i];
    r1, as' := SortItems(first, cs, a);
    r2, bs' := SortSecond(second, cs, a, as', b);
    fst, snd := r1, r2;
  }

  /** Sorting the second half leaves the first one, already sorted, alone. */
  method SortSecond(second: Item, cs: bool, ghost a: seq<Item>, ghost as': seq<Item>, ghost b: seq<Item>)
    returns (snd: Item?, ghost bs': seq<Item>)
    requires Linked(as') && Distinct(as') && Within(as', a) && Linked(b) && Distinct(b) && Apart(a, b)
      && Named(as') && Named(b)
    requires b != [] && second == b[0] && second.prev == null && as' != []
    modifies b`next, b`prev
    ensures Merging([], as', bs') && snd == First(bs') && Named(bs') && Within(bs', b)
    ensures Tags(bs') == old(Sorting.SortList(Tags(b), cs))
    ensures snd != null && snd.prev == null && as'[0].prev == old(as'[0].prev)
    decreases |b|, 6
  {
    snd, bs' := SortItems(second, cs, b);
    ApartWithin(a, b, as', bs');
  }

  // ---- sorting an object ----

  /** The ends of the sorted list, by the names before. */
  lemma SortedEnds(xs: seq<Item>, ys: seq<Item>, cs: bool)
    requires xs != [] && |ys| == |xs| && Distinct(xs) && Named(xs) && Named(ys)
    requires Tags(ys) == Sorting.SortList(Tags(xs), cs)
    ensures ys[0] == xs[Least(Tags(xs), cs)] && ys[|ys| - 1] == xs[Greatest(Tags(xs), cs)]
    ensures ys[0] == xs[0] <==> FirstLowest(Tags(xs), cs)
    ensures ys[|ys| - 1] == xs[|xs| - 1] <==> LastHighest(Tags(xs), cs)
  {
    hide Named;
    hide Tags;
    hide FirstLowest;
    hide LastHighest;
    hide Least;
    hide Greatest;
    hide KeyLess;
    hide Sorting.SortList;
    var ms := Tags(xs);
    SortFirst(ms, cs);
    SortLast(ms, cs);
    LeastFirst(ms, cs);
    GreatestLast(ms, cs);
    assert Tags(ys)[0].value == ys[0] && Tags(ys)[|ys| - 1].value == ys[|ys| - 1];
  }

  /** Where the head of the sorted list `ys` points back to, when `xs` was the list before; `stays` says
      whether its first item stayed. */
  ghost predicate AfterSort(parent: Item, xs: seq<Item>, ys: seq<Item>, stays: bool)
    requires xs != [] && ys != []
    reads parent`child, ys`next, ys`prev
  {
    if !stays then Orphaned(parent, ys)
    else forall k :: 0 <= k < |ys| && ys[k] == xs[|xs| - 1] ==> Headed(parent, ys, k)
  }

  /** `sort_object`. The names come out in order, on the same items, and the links inside the list stay
      intact. If the first name was below all others, the head still points back to where it did; else it
      points to nothing. So a whole list stays whole exactly when the last name was above all others, too. */
  method SortObject(parent: Item, cs: bool, ghost xs: seq<Item>) returns (ghost ys: seq<Item>)
    requires Strung(parent, xs) && Named(xs)
    modifies parent`child, xs`next, xs`prev
    ensures Strung(parent, ys) && Named(ys)
    ensures multiset(ys) == multiset(xs) && NonDecreasing(Tags(ys), cs)
    ensures Tags(ys) == old(Sorting.SortList(Tags(xs), cs))
    ensures xs != [] ==> ys != [] && ys[0] == xs[old(Least(Tags(xs), cs))]
    ensures xs != [] ==> ys[|ys| - 1] == xs[old(Greatest(Tags(xs), cs))]
    ensures xs != [] ==> ys[0].prev == if old(FirstLowest(Tags(xs), cs)) then old(xs[0].prev) else null
    ensures old(Children(parent, xs)) ==>
      (Children(parent, ys) <==> old(FirstLowest(Tags(xs), cs) && LastHighest(Tags(xs), cs)))
    ensures xs != [] && old(Children(parent, xs)) ==> AfterSort(parent, xs, ys, old(FirstLowest(Tags(xs), cs)))
  {
    hide Named;
    hide Tags;
    hide Sorting.SortList;
    hide NonDecreasing;
    hide Least;
    hide Greatest;
    assert xs == [] ==> FirstLowest(Tags(xs), cs) && LastHighest(Tags(xs), cs);
    hide FirstLowest;
    hide LastHighest;
    ghost var tags := Tags(xs);
    var result;
    result, ys := SortItems(parent.child, cs, xs);
    hide Linked;
    hide Distinct;
    assert Tags(xs) == tags;
    SortedItems(xs, ys, cs);
    parent.child := result;
    if xs != [] {
      SortedEnds(xs, ys, cs);
      if old(Children(parent, xs)) {
        HeadLink(parent, xs, ys);
      }
    }
  }

  lemma SortedItems(xs: seq<Item>, ys: seq<Item>, cs: bool)
    requires Named(xs) && Named(ys) && Tags(ys) == Sorting.SortList(Tags(xs), cs)
    ensures multiset(ys) == multiset(xs) && NonDecreasing(Tags(ys), cs) && |ys| == |xs|
  {
    SortCorrect(Tags(xs), cs);
    SameItems(xs, ys);
  }

  lemma HeadLink(parent: Item, xs: seq<Item>, ys: seq<Item>)
    requires xs != [] && ys != [] && Distinct(ys) && Linked(ys) && parent.child == ys[0]
    requires ys[0].prev == if ys[0] == xs[0] then xs[|xs| - 1] else null
    ensures Children(parent, ys) <==> ys[0] == xs[0] && ys[|ys| - 1] == xs[|xs| - 1]
    ensures AfterSort(parent, xs, ys, ys[0] == xs[0])
  {
    hide Distinct;
    hide Linked;
  }

  /** An object that has been compared, and so sorted, and then gets a new member: the member is dropped
      if the first name was not below all others; else everything behind the old last item is lost,
      which is nothing only if its name was above all others. */
  method SortThenAdd(parent: Item, item: Item, cs: bool, ghost xs: seq<Item>)
    returns (ghost ys: seq<Item>, ghost k: nat)
    requires Children(parent, xs) && Named(xs) && xs != [] && item !in xs && item.next == null
    modifies parent`child, item`next, item`prev, xs`next, xs`prev
    ensures multiset(ys) == multiset(xs) && Named(ys) && NonDecreasing(Tags(ys), cs)
    ensures k < |ys| && ys[k] == xs[|xs| - 1] && (k == |ys| - 1 <==> old(LastHighest(Tags(xs), cs)))
    ensures if old(FirstLowest(Tags(xs), cs)) then Children(parent, ys[..k + 1] + [item]) else Orphaned(parent, ys)
  {
    hide Tags;
    hide Named;
    hide NonDecreasing;
    hide FirstLowest;
    hide LastHighest;
    hide Least;
    hide Greatest;
    hide Sorting.SortList;
    hide Linked;
    assert Distinct(xs);
    hide Children;
    ghost var lowest := FirstLowest(Tags(xs), cs);
    ghost var tags := Tags(xs);
    ys := SortObject(parent, cs, xs);
    k := Place(ys, xs, xs[|xs| - 1]);
    assert Tags(xs) == tags;
    assert |ys| == |multiset(ys)| == |multiset(xs)| == |xs|;
    SortedEnds(xs, ys, cs);
    assert ys[|ys| - 1] == ys[k] <==> k == |ys| - 1;
    hide Distinct;
    AddSorted(parent, item, xs, ys, k, lowest);
  }

  method AddSorted(parent: Item, item: Item, ghost xs: seq<Item>, ghost ys: seq<Item>, ghost k: nat, ghost stays: bool)
    requires xs != [] && multiset(ys) == multiset(xs) && k < |ys| && ys[k] == xs[|xs| - 1]
    requires AfterSort(parent, xs, ys, stays) && item !in xs && item.next == null
    modifies parent`child, item`next, item`prev, xs`next, xs`prev
    ensures if stays then Children(parent, ys[..k + 1] + [item]) else Orphaned(parent, ys)
  {
    hide Linked;
    hide Distinct;
    hide Children;
    hide Orphaned;
    hide Headed;
    SameMembers(xs, ys);
    AddItem(parent, item, ys, k);
  }

  lemma SameMembers(xs: seq<Item>, ys: seq<Item>)
    requires multiset(ys) == multiset(xs)
    ensures forall x :: x in ys <==> x in xs
    ensures forall i :: 0 <= i < |ys| ==> ys[i] in xs
  {
    assert forall x :: x in ys <==> x in multiset(ys);
    assert forall x :: x in xs <==> x in multiset(xs);
  }

  lemma Place(ys: seq<Item>, xs: seq<Item>, x: Item) returns (k: nat)
    requires multiset(ys) == multiset(xs) && x in xs
    ensures k < |ys| && ys[k] == x
  {
    assert x in multiset(ys);
    k :| 0 <= k < |ys| && ys[k] == x;
  }

  lemma {:induction false} TagCount(xs: seq<Item>, x: Item)
    requires Named(xs) && x.name.Some?
    ensures multiset(Tags(xs))[Member(x.name.value, x)] == multiset(xs)[x]
    decreases |xs|
  {
    if xs == [] {
    } else {
      TagsRest(xs);
      TagCount(xs[1..], x);
      assert xs == [xs[0]] + xs[1..];
      assert Tags(xs) == [Tags(xs)[0]] + Tags(xs[1..]);
    }
  }

  lemma SameItems(xs: seq<Item>, ys: seq<Item>)
    requires Named(xs) && Named(ys) && multiset(Tags(ys)) == multiset(Tags(xs))
    ensures multiset(ys) == multiset(xs)
  {
    forall x: Item | x in xs || x in ys ensures multiset(ys)[x] == multiset(xs)[x] {
      TagCount(xs, x);
      TagCount(ys, x);
    }
  }

  // ---- two objects whose list is not whole after sorting ----

  lemma LetterOrder(cs: bool)
    ensures KeyLess("a", "b", cs) && KeyLess("a", "c", cs) && KeyLess("b", "c", cs)
    ensures !KeyLess("b", "a", cs) && !KeyLess("c", "a", cs) && !KeyLess("c", "b", cs)
  {
    assert Lower("a") == "a" && Lower("b") == "b" && Lower("c") == "c";
  }

  /** The members "b" and "a": sorted, the head points back to nothing. */
  method SortTwo(parent: Item, b: Item, a: Item, cs: bool)
    requires Children(parent, [b, a]) && b.name == Some("b") && a.name == Some("a")
    modifies parent`child, b`next, b`prev, a`next, a`prev
    ensures Orphaned(parent, [a, b]) && !Children(parent, [a, b])
  {
    LetterOrder(cs);
    ghost var xs := [b, a];
    assert Named(xs) && Tags(xs)[0].key == "b" && Tags(xs)[1].key == "a";
    assert !FirstLowest(Tags(xs), cs);
    TwoEnds(Tags(xs), cs);
    ghost var ys := SortObject(parent, cs, xs);
    assert |ys| == |multiset(ys)| == 2;
    assert ys == [a, b];
  }

  lemma TwoEnds<T>(ms: seq<Member<T>>, cs: bool)
    requires |ms| == 2 && KeyLess(ms[1].key, ms[0].key, cs) && !KeyLess(ms[0].key, ms[1].key, cs)
    ensures Least(ms, cs) == 1 && Greatest(ms, cs) == 0
  {
  }

  /** The members "a", "c" and "b": sorted, the head points back to the middle item. */
  method SortThree(parent: Item, a: Item, c: Item, b: Item, cs: bool)
    requires Children(parent, [a, c, b])
    requires a.name == Some("a") && c.name == Some("c") && b.name == Some("b")
    modifies parent`child, a`next, a`prev, b`next, b`prev, c`next, c`prev
    ensures Headed(parent, [a, b, c], 1) && !Children(parent, [a, b, c])
  {
    ghost var xs := [a, c, b];
    ThreeNames(xs, cs);
    hide Named;
    hide Tags;
    hide FirstLowest;
    hide LastHighest;
    hide NonDecreasing;
    ghost var ys := SortObject(parent, cs, xs);
    ThreeItems(ys, a, c, b);
  }

  lemma ThreeNames(xs: seq<Item>, cs: bool)
    requires |xs| == 3 && xs[0].name == Some("a") && xs[1].name == Some("c") && xs[2].name == Some("b")
    ensures Named(xs) && FirstLowest(Tags(xs), cs) && !LastHighest(Tags(xs), cs)
    ensures Least(Tags(xs), cs) == 0 && Greatest(Tags(xs), cs) == 1
  {
    LetterOrder(cs);
    hide KeyLess;
    var ms := Tags(xs);
    hide Tags;
    assert ms[0].key == "a" && ms[1].key == "c" && ms[2].key == "b";
    ThreeEnds(ms, cs);
  }

  lemma ThreeItems(ys: seq<Item>, a: Item, c: Item, b: Item)
    requires multiset(ys) == multiset([a, c, b]) && ys != [] && ys[0] == a && ys[|ys| - 1] == c
    requires a != b && b != c && a != c
    ensures ys == [a, b, c]
  {
    assert |ys| == |multiset(ys)| == 3;
    assert b in multiset(ys);
    assert ys == [ys[0], ys[1], ys[2]];
  }

  lemma ThreeEnds<T>(ms: seq<Member<T>>, cs: bool)
    requires |ms| == 3 && KeyLess(ms[0].key, ms[2].key, cs) && KeyLess(ms[2].key, ms[1].key, cs)
    requires !KeyLess(ms[1].key, ms[2].key, cs) && KeyLess(ms[0].key, ms[1].key, cs)
    ensures Least(ms, cs) == 0 && Greatest(ms, cs) == 1
  {
    hide KeyLess;
    assert ms[1..][1..] == [ms[2]];
  }
}
