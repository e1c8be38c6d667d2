/** The library's merge sort of a member list, as a function on sequences. `ListSort` runs the
    same algorithm on linked items and is proved to compute this function. */
module Sorting {
  import opened Text
  import opened Json

  /** The "already sorted" test: each key strictly below the next. */
  predicate Ascending<T>(xs: seq<Member<T>>, cs: bool) {
    |xs| <= 1 || (KeyLess(xs[0].key, xs[1].key, cs) && Ascending(xs[1..], cs))
  }

  predicate NonDecreasing<T>(xs: seq<Member<T>>, cs: bool) {
    |xs| <= 1 || (!KeyLess(xs[1].key, xs[0].key, cs) && NonDecreasing(xs[1..], cs))
  }

  /** On equal keys the item of the second list goes first. */
  function MergeLists<T>(a: seq<Member<T>>, b: seq<Member<T>>, cs: bool): (r: seq<Member<T>>)
    ensures |r| == |a| + |b|
    decreases |a| + |b|
  {
    if a == [] then b
    else if b == [] then a
    else if KeyLess(a[0].key, b[0].key, cs) then [a[0]] + MergeLists(a[1..], b, cs)
    else [b[0]] + MergeLists(a, b[1..], cs)
  }

  /** The two-speed walk stops at the upper middle. */
  function Middle(n: nat): (h: nat)
    ensures n >= 2 ==> 0 < h < n
  {
    (n + 1) / 2
  }

  function SortList<T>(xs: seq<Member<T>>, cs: bool): (r: seq<Member<T>>)
    ensures |r| == |xs|
    decreases |xs|
  {
    if |xs| <= 1 || Ascending(xs, cs) then xs
    else
      var h := Middle(|xs|);
      MergeLists(SortList(xs[..h], cs), SortList(xs[h..], cs), cs)
  }

  /** Two members in the wrong order change places. */
  lemma SortPair<T>(x: Member<T>, y: Member<T>, cs: bool)
    requires KeyLess(y.key, x.key, cs) && !KeyLess(x.key, y.key, cs)
    ensures SortList([x, y], cs) == [y, x]
  {
    hide KeyLess;
    var ms := [x, y];
    assert ms[..1] == [x] && ms[1..] == [y] && !Ascending(ms, cs) && Middle(2) == 1;
    assert SortList([x], cs) == [x] && SortList([y], cs) == [y];
    assert MergeLists([x], [y], cs) == [y] + MergeLists([x], [y][1..], cs);
    assert [y][1..] == [];
  }

  lemma SortedStays<T>(xs: seq<Member<T>>, cs: bool)
    requires Ascending(xs, cs)
    ensures SortList(xs, cs) == xs
  {
  }

  // ---- permutation ----

  lemma HeadMultiset<T>(xs: seq<T>)
    requires xs != []
    ensures multiset(xs) == multiset{xs[0]} + multiset(xs[1..])
  {
    assert xs == [xs[0]] + xs[1..];
  }

  lemma {:induction false} MergePermutes<T>(a: seq<Member<T>>, b: seq<Member<T>>, cs: bool)
    ensures multiset(MergeLists(a, b, cs)) == multiset(a) + multiset(b)
    decreases |a| + |b|
  {
    if a == [] || b == [] {
    } else {
      HeadMultiset(a);
      HeadMultiset(b);
      HeadMultiset(MergeLists(a, b, cs));
      if KeyLess(a[0].key, b[0].key, cs) {
        MergePermutes(a[1..], b, cs);
      } else {
        MergePermutes(a, b[1..], cs);
      }
    }
  }

  lemma HalvesMultiset<T>(xs: seq<T>, h: nat)
    requires h <= |xs|
    ensures multiset(xs) == multiset(xs[..h]) + multiset(xs[h..])
  {
    assert xs == xs[..h] + xs[h..];
  }

  lemma {:induction false} SortPermutes<T>(xs: seq<Member<T>>, cs: bool)
    ensures multiset(SortList(xs, cs)) == multiset(xs)
    decreases |xs|
  {
    hide KeyLess;
    if |xs| <= 1 || Ascending(xs, cs) {
    } else {
      var h := Middle(|xs|);
      var a, b := SortList(xs[..h], cs), SortList(xs[h..], cs);
      SortPermutes(xs[..h], cs);
      SortPermutes(xs[h..], cs);
      MergePermutes(a, b, cs);
      HalvesMultiset(xs, h);
      hide MergeLists;
      hide Ascending;
    }
  }

  // ---- order ----

  lemma {:induction false} AscendingNonDecreasing<T>(xs: seq<Member<T>>, cs: bool)
    requires Ascending(xs, cs)
    ensures NonDecreasing(xs, cs)
  {
    if |xs| <= 1 {
    } else {
      LexTrichotomy(Fold(xs[0].key, cs), Fold(xs[1].key, cs));
      AscendingNonDecreasing(xs[1..], cs);
    }
  }

  /** Putting an item in front of a sorted list that does not start below it. */
  lemma PrependSorted<T>(x: Member<T>, xs: seq<Member<T>>, cs: bool)
    requires NonDecreasing(xs, cs) && (xs != [] ==> !KeyLess(xs[0].key, x.key, cs))
    ensures NonDecreasing([x] + xs, cs)
  {
    assert ([x] + xs)[1..] == xs;
  }

  lemma {:induction false} MergeSorted<T>(a: seq<Member<T>>, b: seq<Member<T>>, cs: bool)
    requires NonDecreasing(a, cs) && NonDecreasing(b, cs)
    ensures NonDecreasing(MergeLists(a, b, cs), cs)
    decreases |a| + |b|
  {
    if a == [] || b == [] {
    } else {
      LexTrichotomy(Fold(a[0].key, cs), Fold(b[0].key, cs));
      if KeyLess(a[0].key, b[0].key, cs) {
        MergeSorted(a[1..], b, cs);
        PrependSorted(a[0], MergeLists(a[1..], b, cs), cs);
      } else {
        MergeSorted(a, b[1..], cs);
        PrependSorted(b[0], MergeLists(a, b[1..], cs), cs);
      }
    }
  }

  lemma {:induction false} SortSorts<T>(xs: seq<Member<T>>, cs: bool)
    ensures NonDecreasing(SortList(xs, cs), cs)
    decreases |xs|
  {
    if Ascending(xs, cs) {
      AscendingNonDecreasing(xs, cs);
    } else {
      var h := Middle(|xs|);
      SortSorts(xs[..h], cs);
      SortSorts(xs[h..], cs);
      MergeSorted(SortList(xs[..h], cs), SortList(xs[h..], cs), cs);
    }
  }

  /** Sorting orders a list by key and keeps exactly its items. */
  lemma SortCorrect<T>(xs: seq<Member<T>>, cs: bool)
    ensures NonDecreasing(SortList(xs, cs), cs)
    ensures multiset(SortList(xs, cs)) == multiset(xs)
  {
    SortSorts(xs, cs);
    SortPermutes(xs, cs);
  }

  // ---- what comes first and what comes last ----

  /** The last of the least keys. */
  function Least<T>(xs: seq<Member<T>>, cs: bool): (i: nat)
    requires xs != []
    ensures i < |xs|
  {
    if |xs| == 1 then 0
    else
      var r := 1 + Least(xs[1..], cs);
      if KeyLess(xs[0].key, xs[r].key, cs) then 0 else r
  }

  /** The first of the greatest keys. */
  function Greatest<T>(xs: seq<Member<T>>, cs: bool): (i: nat)
    requires xs != []
    ensures i < |xs|
  {
    if |xs| == 1 then 0
    else
      var r := 1 + Greatest(xs[1..], cs);
      if KeyLess(xs[0].key, xs[r].key, cs) then r else 0
  }

  lemma KeyTrichotomy(a: string, b: string, cs: bool)
    ensures KeyLess(a, b, cs) || SameKey(a, b, cs) || KeyLess(b, a, cs)
    ensures !(KeyLess(a, b, cs) && KeyLess(b, a, cs)) && (SameKey(a, b, cs) ==> !KeyLess(a, b, cs))
  {
    LexTrichotomy(Fold(a, cs), Fold(b, cs));
  }

  /** The order on keys is total: what is not above is at or below. */
  lemma KeyChain(a: string, b: string, c: string, cs: bool)
    ensures KeyLess(a, b, cs) && KeyLess(b, c, cs) ==> KeyLess(a, c, cs)
    ensures KeyLess(a, b, cs) && !KeyLess(c, b, cs) ==> KeyLess(a, c, cs)
    ensures !KeyLess(b, a, cs) && KeyLess(b, c, cs) ==> KeyLess(a, c, cs)
    ensures !KeyLess(b, a, cs) && !KeyLess(c, b, cs) ==> !KeyLess(c, a, cs)
  {
    var x, y, z := Fold(a, cs), Fold(b, cs), Fold(c, cs);
    LexTrichotomy(x, y);
    LexTrichotomy(y, z);
    LexTrichotomy(x, z);
    if LexLess(x, y) && LexLess(y, z) {
      LexTransitive(x, y, z);
    }
    if LexLess(z, x) && LexLess(x, y) {
      LexTransitive(z, x, y);
    }
    if LexLess(y, z) && LexLess(z, x) {
      LexTransitive(y, z, x);
    }
  }

  lemma HeadTail<T>(a: seq<T>)
    requires a != []
    ensures a == [a[0]] + a[1..]
  {
  }

  lemma Regroup<T>(x: T, a: seq<T>, b: seq<T>)
    ensures ([x] + a) + b == [x] + (a + b)
  {
  }

  lemma LeastCons<T>(x: Member<T>, ys: seq<Member<T>>, cs: bool)
    requires ys != []
    ensures var r := Least(ys, cs);
      Least([x] + ys, cs) == if KeyLess(x.key, ys[r].key, cs) then 0 else 1 + r
  {
    hide KeyLess;
    assert ([x] + ys)[1..] == ys;
  }

  lemma {:induction false} LeastConcat<T>(a: seq<Member<T>>, b: seq<Member<T>>, cs: bool)
    requires a != [] && b != []
    ensures var i, j := Least(a, cs), Least(b, cs);
      Least(a + b, cs) == if KeyLess(a[i].key, b[j].key, cs) then i else |a| + j
  {
    hide KeyLess;
    if |a| == 1 {
      assert a == [a[0]];
      LeastCons(a[0], b, cs);
    } else {
      var x, t := a[0], a[1..];
      HeadTail(a);
      Regroup(x, t, b);
      hide Least;
      LeastConcat(t, b, cs);
      LeastCons(x, t, cs);
      LeastCons(x, t + b, cs);
      KeyChain(x.key, t[Least(t, cs)].key, b[Least(b, cs)].key, cs);
      KeyChain(b[Least(b, cs)].key, t[Least(t, cs)].key, x.key, cs);
    }
  }

  lemma GreatestCons<T>(x: Member<T>, ys: seq<Member<T>>, cs: bool)
    requires ys != []
    ensures var r := Greatest(ys, cs);
      Greatest([x] + ys, cs) == if KeyLess(x.key, ys[r].key, cs) then 1 + r else 0
  {
    hide KeyLess;
    assert ([x] + ys)[1..] == ys;
  }

  lemma {:induction false} GreatestConcat<T>(a: seq<Member<T>>, b: seq<Member<T>>, cs: bool)
    requires a != [] && b != []
    ensures var i, j := Greatest(a, cs), Greatest(b, cs);
      Greatest(a + b, cs) == if KeyLess(a[i].key, b[j].key, cs) then |a| + j else i
  {
    hide KeyLess;
    if |a| == 1 {
      assert a == [a[0]];
      GreatestCons(a[0], b, cs);
    } else {
      var x, t := a[0], a[1..];
      HeadTail(a);
      Regroup(x, t, b);
      hide Greatest;
      GreatestConcat(t, b, cs);
      GreatestCons(x, t, cs);
      GreatestCons(x, t + b, cs);
      KeyChain(x.key, t[Greatest(t, cs)].key, b[Greatest(b, cs)].key, cs);
      KeyChain(b[Greatest(b, cs)].key, t[Greatest(t, cs)].key, x.key, cs);
    }
  }

  lemma {:induction false} AscendingEnds<T>(xs: seq<Member<T>>, cs: bool)
    requires xs != [] && Ascending(xs, cs)
    ensures Least(xs, cs) == 0 && Greatest(xs, cs) == |xs| - 1
  {
    hide KeyLess;
    if |xs| <= 1 {
    } else {
      AscendingEnds(xs[1..], cs);
      AscendingHead(xs, |xs| - 1, cs);
    }
  }

  function Last<T>(xs: seq<T>): T
    requires xs != []
  {
    xs[|xs| - 1]
  }

  lemma ConsLast<T>(x: T, xs: seq<T>)
    requires xs != []
    ensures Last([x] + xs) == Last(xs)
  {
  }

  lemma SortedRest<T>(xs: seq<Member<T>>, cs: bool)
    requires |xs| > 1 && NonDecreasing(xs, cs)
    ensures NonDecreasing(xs[1..], cs) && Last(xs[1..]) == Last(xs)
  {
  }

  lemma {:induction false} LastAbove<T>(xs: seq<Member<T>>, cs: bool)
    requires xs != [] && NonDecreasing(xs, cs)
    ensures !KeyLess(Last(xs).key, xs[0].key, cs)
  {
    hide KeyLess;
    if |xs| == 1 {
      KeyTrichotomy(xs[0].key, xs[0].key, cs);
    } else {
      LastAbove(xs[1..], cs);
      KeyChain(xs[0].key, xs[1].key, Last(xs).key, cs);
    }
  }

  /** The last item of two merged lists. */
  lemma {:induction false} MergeLast<T>(a: seq<Member<T>>, b: seq<Member<T>>, cs: bool)
    requires a != [] && b != [] && NonDecreasing(a, cs) && NonDecreasing(b, cs)
    ensures Last(MergeLists(a, b, cs)) == if KeyLess(Last(a).key, Last(b).key, cs) then Last(b) else Last(a)
    decreases |a| + |b|
  {
    LastAbove(a, cs);
    LastAbove(b, cs);
    if KeyLess(a[0].key, b[0].key, cs) {
      ConsLast(a[0], MergeLists(a[1..], b, cs));
    } else {
      ConsLast(b[0], MergeLists(a, b[1..], cs));
    }
    hide KeyLess;
    hide NonDecreasing;
    if KeyLess(a[0].key, b[0].key, cs) {
      if |a| == 1 {
        KeyChain(Last(a).key, b[0].key, Last(b).key, cs);
      } else {
        SortedRest(a, cs);
        MergeLast(a[1..], b, cs);
      }
    } else if |b| == 1 {
      KeyChain(Last(b).key, a[0].key, Last(a).key, cs);
    } else {
      SortedRest(b, cs);
      MergeLast(a, b[1..], cs);
    }
  }

  lemma MergeFirst<T>(a: seq<Member<T>>, b: seq<Member<T>>, cs: bool)
    requires a != [] && b != []
    ensures MergeLists(a, b, cs)[0] == if KeyLess(a[0].key, b[0].key, cs) then a[0] else b[0]
  {
  }

  lemma LeastOfHalves<T>(xs: seq<Member<T>>, h: nat, cs: bool)
    requires 0 < h < |xs|
    ensures var u, v := xs[..h][Least(xs[..h], cs)], xs[h..][Least(xs[h..], cs)];
      xs[Least(xs, cs)] == if KeyLess(u.key, v.key, cs) then u else v
  {
    hide KeyLess;
    hide Least;
    LeastConcat(xs[..h], xs[h..], cs);
    assert xs == xs[..h] + xs[h..];
  }

  /** Sorting puts the last of the least keys first. */
  lemma {:induction false} SortFirst<T>(xs: seq<Member<T>>, cs: bool)
    requires xs != []
    ensures SortList(xs, cs)[0] == xs[Least(xs, cs)]
    decreases |xs|
  {
    hide KeyLess;
    if |xs| <= 1 || Ascending(xs, cs) {
      AscendingEnds(xs, cs);
    } else {
      var h := Middle(|xs|);
      SortFirst(xs[..h], cs);
      SortFirst(xs[h..], cs);
      hide MergeLists;
      hide Ascending;
      hide Least;
      MergeFirst(SortList(xs[..h], cs), SortList(xs[h..], cs), cs);
      LeastOfHalves(xs, h, cs);
    }
  }

  lemma GreatestOfHalves<T>(xs: seq<Member<T>>, h: nat, cs: bool)
    requires 0 < h < |xs|
    ensures var u, v := xs[..h][Greatest(xs[..h], cs)], xs[h..][Greatest(xs[h..], cs)];
      xs[Greatest(xs, cs)] == if KeyLess(u.key, v.key, cs) then v else u
  {
    hide KeyLess;
    hide Greatest;
    GreatestConcat(xs[..h], xs[h..], cs);
    assert xs == xs[..h] + xs[h..];
  }

  /** Sorting puts the first of the greatest keys last. */
  lemma {:induction false} SortLast<T>(xs: seq<Member<T>>, cs: bool)
    requires xs != []
    ensures Last(SortList(xs, cs)) == xs[Greatest(xs, cs)]
    decreases |xs|
  {
    hide KeyLess;
    if |xs| <= 1 || Ascending(xs, cs) {
      AscendingEnds(xs, cs);
    } else {
      var h := Middle(|xs|);
      SortLast(xs[..h], cs);
      SortLast(xs[h..], cs);
      SortSorts(xs[..h], cs);
      SortSorts(xs[h..], cs);
      hide MergeLists;
      hide Ascending;
      hide NonDecreasing;
      hide Last;
      hide Greatest;
      MergeLast(SortList(xs[..h], cs), SortList(xs[h..], cs), cs);
      GreatestOfHalves(xs, h, cs);
    }
  }

  /** Every later key is above the first one. */
  predicate FirstLowest<T>(xs: seq<Member<T>>, cs: bool) {
    forall i :: 0 < i < |xs| ==> KeyLess(xs[0].key, xs[i].key, cs)
  }

  /** Every earlier key is below the last one. */
  predicate LastHighest<T>(xs: seq<Member<T>>, cs: bool) {
    forall i :: 0 <= i < |xs| - 1 ==> KeyLess(xs[i].key, xs[|xs| - 1].key, cs)
  }

  lemma {:induction false} LeastFirst<T>(xs: seq<Member<T>>, cs: bool)
    requires xs != []
    ensures Least(xs, cs) == 0 <==> FirstLowest(xs, cs)
    ensures forall i :: 0 <= i < |xs| ==> !KeyLess(xs[i].key, xs[Least(xs, cs)].key, cs)
  {
    hide KeyLess;
    var m := Least(xs, cs);
    if |xs| == 1 {
      KeyTrichotomy(xs[0].key, xs[0].key, cs);
    } else {
      LeastFirst(xs[1..], cs);
      var r := 1 + Least(xs[1..], cs);
      forall i | 0 <= i < |xs|
        ensures !KeyLess(xs[i].key, xs[m].key, cs) && (m == 0 && i > 0 ==> KeyLess(xs[0].key, xs[i].key, cs))
      {
        assert i > 0 ==> xs[i] == xs[1..][i - 1];
        KeyTrichotomy(xs[0].key, xs[i].key, cs);
        KeyChain(xs[0].key, xs[r].key, xs[i].key, cs);
      }
    }
  }

  lemma {:induction false} GreatestLast<T>(xs: seq<Member<T>>, cs: bool)
    requires xs != []
    ensures Greatest(xs, cs) == |xs| - 1 <==> LastHighest(xs, cs)
  {
    hide KeyLess;
    if |xs| <= 1 {
    } else {
      GreatestLast(xs[1..], cs);
      HighestTail(xs, cs);
      hide LastHighest;
    }
  }

  lemma HighestTail<T>(xs: seq<Member<T>>, cs: bool)
    requires |xs| > 1
    ensures LastHighest(xs, cs) <==> KeyLess(xs[0].key, xs[|xs| - 1].key, cs) && LastHighest(xs[1..], cs)
  {
    hide KeyLess;
    var t := xs[1..];
    assert t[|t| - 1] == xs[|xs| - 1];
    if LastHighest(xs, cs) {
      assert forall i :: 0 <= i < |t| ==> t[i] == xs[i + 1];
    } else {
      assert forall i :: 0 < i < |xs| ==> xs[i] == t[i - 1];
    }
  }

  // ---- distinct keys: the sorted list is strictly ascending and denotes the same map ----

  lemma {:induction false} DistinctAscending<T>(xs: seq<Member<T>>, cs: bool)
    requires NonDecreasing(xs, cs) && DistinctKeys(xs, cs)
    ensures Ascending(xs, cs)
  {
    if |xs| <= 1 {
    } else {
      DistinctPair(xs, 0, 1, cs);
      LexTrichotomy(Fold(xs[0].key, cs), Fold(xs[1].key, cs));
      DistinctAscending(xs[1..], cs);
    }
  }

  lemma WithoutMultiset<T>(xs: seq<T>, i: nat)
    requires i < |xs|
    ensures multiset(Without(xs, i)) == multiset(xs) - multiset{xs[i]}
  {
    assert xs == xs[..i] + ([xs[i]] + xs[i + 1..]);
  }

  /** Reordering a list with distinct keys does not change what it denotes. */
  lemma {:induction false} PermutationAbs(xs: seq<Member<Json>>, ys: seq<Member<Json>>, cs: bool)
    requires multiset(xs) == multiset(ys) && DistinctKeys(xs, cs)
    ensures DistinctKeys(ys, cs) && AbsMembers(ys, cs) == AbsMembers(xs, cs)
    decreases |ys|
  {
    hide Abs;
    hide Fold;
    hide FindKey;
    if ys == [] {
      assert |xs| == |multiset(xs)| == |multiset(ys)| == 0;
    } else {
      var i := Occurrence(xs, ys[0], ys);
      var w, t := Without(xs, i), ys[1..];
      WithoutMultiset(xs, i);
      WithoutMultiset(ys, 0);
      assert Without(ys, 0) == t;
      hide Without;
      DistinctWithout(xs, i, cs);
      PermutationAbs(w, t, cs);
      PermutationStep(xs, i, t, cs);
      HeadTail(ys);
      hide AbsMembers;
      hide DistinctKeys;
    }
  }

  lemma Occurrence<T>(xs: seq<T>, y: T, ys: seq<T>) returns (i: nat)
    requires y in ys && multiset(xs) == multiset(ys)
    ensures i < |xs| && xs[i] == y
  {
    assert y in multiset(ys);
    i :| 0 <= i < |xs| && xs[i] == y;
  }

  lemma PermutationStep(xs: seq<Member<Json>>, i: nat, t: seq<Member<Json>>, cs: bool)
    requires i < |xs| && DistinctKeys(xs, cs) && DistinctKeys(t, cs)
    requires AbsMembers(t, cs) == AbsMembers(Without(xs, i), cs)
    ensures DistinctKeys([xs[i]] + t, cs) && AbsMembers([xs[i]] + t, cs) == AbsMembers(xs, cs)
  {
    hide Abs;
    hide Fold;
    var y := xs[i];
    FindOwn(xs, y.key, i, cs);
    FindWithout(xs, i, y.key, cs);
    AbsAt(Without(xs, i), y.key, cs);
    AbsAt(t, y.key, cs);
    AbsAt(xs, y.key, cs);
    AbsWithout(xs, i, cs);
    assert ([y] + t)[1..] == t;
  }

  lemma SortDistinct(xs: seq<Member<Json>>, cs: bool)
    requires DistinctKeys(xs, cs)
    ensures var r := SortList(xs, cs);
      Ascending(r, cs) && DistinctKeys(r, cs) && AbsMembers(r, cs) == AbsMembers(xs, cs)
  {
    SortCorrect(xs, cs);
    PermutationAbs(xs, SortList(xs, cs), cs);
    DistinctAscending(SortList(xs, cs), cs);
  }

  lemma SortMembership<T>(xs: seq<Member<T>>, cs: bool, x: Member<T>)
    ensures x in SortList(xs, cs) <==> x in xs
  {
    SortPermutes(xs, cs);
    assert x in SortList(xs, cs) <==> x in multiset(SortList(xs, cs));
  }

  /** In a strictly ascending list every later key is above the first. */
  lemma {:induction false} AscendingHead<T>(xs: seq<Member<T>>, i: nat, cs: bool)
    requires Ascending(xs, cs) && 0 < i < |xs|
    ensures KeyLess(xs[0].key, xs[i].key, cs)
  {
    if i <= 1 {
    } else {
      AscendingHead(xs[1..], i - 1, cs);
      LexTransitive(Fold(xs[0].key, cs), Fold(xs[1].key, cs), Fold(xs[i].key, cs));
    }
  }

  /** So a key at or below the first is found nowhere behind it. */
  lemma AscendingAbsent<T>(xs: seq<Member<T>>, k: string, cs: bool)
    requires Ascending(xs, cs)
    requires xs != [] ==> KeyLess(k, xs[0].key, cs)
    ensures FindKey(xs, k, cs) == |xs|
  {
    var i := FindKey(xs, k, cs);
    if i < |xs| {
      if i > 0 {
        AscendingHead(xs, i, cs);
        LexTransitive(Fold(k, cs), Fold(xs[0].key, cs), Fold(xs[i].key, cs));
      }
      LexTrichotomy(Fold(k, cs), Fold(xs[i].key, cs));
    }
  }
}
