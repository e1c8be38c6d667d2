/** How many patches are generated: one for each difference. */
module PatchSize {
  import opened Text
  import opened Json
  import opened Sorting
  import opened Compare
  import opened Pointer
  import opened Patch
  import opened PatchGen

  // ---- the differences of two documents ----

  /** Members under one key and elements at one position are compared with each other; a member or element
      without a partner is one difference, and so are two items of different types, and two simple ones that
      `compare_json` tells apart. */
  ghost function Differences(from: Json, to: Json, cs: bool): nat
    decreases from, 0
  {
    match (from, to)
    case (Arr(x), Arr(y)) => InElems(x, y, cs)
    case (Obj(x), Obj(y)) => InMembers(x, y, cs) + Missing(y, x, cs)
    case _ => if CompareSorted(from, to, cs) then 0 else 1
  }

  ghost function InElems(x: seq<Json>, y: seq<Json>, cs: bool): nat
    decreases x, 0
  {
    if x == [] then |y| else if y == [] then |x| else Differences(x[0], y[0], cs) + InElems(x[1..], y[1..], cs)
  }

  ghost function InMembers(x: seq<Member<Json>>, y: seq<Member<Json>>, cs: bool): nat
    decreases x, 0
  {
    if x == [] then 0 else InMember(x[0], y, cs) + InMembers(x[1..], y, cs)
  }

  ghost function InMember(m: Member<Json>, y: seq<Member<Json>>, cs: bool): nat
    decreases m, 0
  {
    var i := FindKey(y, m.key, cs);
    if i == |y| then 1 else Differences(m.value, y[i].value, cs)
  }

  /** How many keys of `y` are not among those of `x`. */
  ghost function Missing(y: seq<Member<Json>>, x: seq<Member<Json>>, cs: bool): nat {
    if y == [] then 0 else (if FindKey(x, y[0].key, cs) == |x| then 1 else 0) + Missing(y[1..], x, cs)
  }

  // ---- the order of the members does not matter ----

  lemma {:induction false} WithoutCounted(x: seq<Member<Json>>, i: nat, y: seq<Member<Json>>, cs: bool)
    requires i < |x|
    ensures InMembers(x, y, cs) == InMember(x[i], y, cs) + InMembers(Without(x, i), y, cs)
    ensures Missing(x, y, cs) == (if FindKey(y, x[i].key, cs) == |y| then 1 else 0) + Missing(Without(x, i), y, cs)
  {
    hide InMember;
    hide FindKey;
    if i == 0 {
      assert Without(x, i) == x[1..];
    } else {
      WithoutStep(x, i);
      WithoutCounted(x[1..], i - 1, y, cs);
    }
  }

  lemma {:induction false} SameCount(x: seq<Member<Json>>, s: seq<Member<Json>>, y: seq<Member<Json>>, cs: bool)
    requires multiset(x) == multiset(s)
    ensures InMembers(x, y, cs) == InMembers(s, y, cs) && Missing(x, y, cs) == Missing(s, y, cs)
    decreases |s|
  {
    hide InMember;
    hide FindKey;
    if s == [] {
      assert |x| == |multiset(x)| == |multiset(s)| == 0;
    } else {
      var i := Occurrence(x, s[0], s);
      WithoutMultiset(x, i);
      WithoutMultiset(s, 0);
      assert Without(s, 0) == s[1..];
      WithoutCounted(x, i, y, cs);
      SameCount(Without(x, i), s[1..], y, cs);
    }
  }

  /** A key leads to one member in whatever order. */
  lemma SameFound(y: seq<Member<Json>>, t: seq<Member<Json>>, k: string, cs: bool)
    requires multiset(y) == multiset(t) && DistinctKeys(y, cs) && DistinctKeys(t, cs)
    ensures var i, j := FindKey(y, k, cs), FindKey(t, k, cs);
      (i < |y| <==> j < |t|) && (i < |y| ==> y[i] == t[j])
  {
    var i, j := FindKey(y, k, cs), FindKey(t, k, cs);
    hide FindKey;
    hide DistinctKeys;
    if i < |y| {
      var n := Occurrence(t, y[i], y);
      FindOwn(t, k, n, cs);
    }
    if j < |t| {
      var n := Occurrence(y, t[j], t);
      FindOwn(y, k, n, cs);
    }
  }

  lemma {:induction false} SameAgainst(x: seq<Member<Json>>, y: seq<Member<Json>>, t: seq<Member<Json>>, cs: bool)
    requires multiset(y) == multiset(t) && DistinctKeys(y, cs) && DistinctKeys(t, cs)
    ensures InMembers(x, y, cs) == InMembers(x, t, cs) && Missing(x, y, cs) == Missing(x, t, cs)
  {
    hide FindKey;
    hide DistinctKeys;
    if x == [] {
    } else {
      SameFound(y, t, x[0].key, cs);
      SameAgainst(x[1..], y, t, cs);
    }
  }

  lemma SortedCount(x: seq<Member<Json>>, y: seq<Member<Json>>, cs: bool)
    requires DistinctKeys(x, cs) && DistinctKeys(y, cs)
    ensures var s, t := SortList(x, cs), SortList(y, cs);
      InMembers(s, t, cs) == InMembers(x, y, cs) && Missing(t, s, cs) == Missing(y, x, cs)
  {
    var s, t := SortList(x, cs), SortList(y, cs);
    SortPermutes(x, cs);
    SortPermutes(y, cs);
    SortDistinct(x, cs);
    SortDistinct(y, cs);
    hide SortList;
    hide InMembers;
    hide Missing;
    hide DistinctKeys;
    SameCount(x, s, t, cs);
    SameCount(y, t, s, cs);
    SameAgainst(x, y, t, cs);
    SameAgainst(y, x, s, cs);
  }

  // ---- the walk over two sorted lists ----

  /** A first member whose key the other list does not have is not needed for the other members. */
  lemma {:induction false} OthersOnly(x: seq<Member<Json>>, y: seq<Member<Json>>, cs: bool)
    requires y != [] && FindKey(x, y[0].key, cs) == |x|
    ensures InMembers(x, y, cs) == InMembers(x, y[1..], cs) && Missing(x, y, cs) == Missing(x, y[1..], cs)
  {
    hide Fold;
    if x == [] {
    } else {
      OthersOnly(x[1..], y, cs);
    }
  }

  lemma NoneBefore(x: seq<Member<Json>>, y: seq<Member<Json>>, cs: bool)
    requires Ascending(x, cs) && y != [] && (x == [] || KeyLess(y[0].key, x[0].key, cs))
    ensures InMembers(x, y, cs) == InMembers(x, y[1..], cs) && Missing(x, y, cs) == Missing(x, y[1..], cs)
    ensures Missing(y, x, cs) == 1 + Missing(y[1..], x, cs) && InMember(y[0], x, cs) == 1
  {
    AscendingAbsent(x, y[0].key, cs);
    hide FindKey;
    hide Ascending;
    hide KeyLess;
    OthersOnly(x, y, cs);
  }

  lemma Partners(x: seq<Member<Json>>, y: seq<Member<Json>>, cs: bool)
    requires Ascending(x, cs) && Ascending(y, cs) && x != [] && y != [] && SameKey(x[0].key, y[0].key, cs)
    ensures InMembers(x, y, cs) == Differences(x[0].value, y[0].value, cs) + InMembers(x[1..], y[1..], cs)
    ensures Missing(y, x, cs) == Missing(y[1..], x[1..], cs)
  {
    BehindFirst(x, y[0].key, cs);
    BehindFirst(y, x[0].key, cs);
    OthersOnly(x[1..], y, cs);
    OthersOnly(y[1..], x, cs);
    assert FindKey(y, x[0].key, cs) == 0 && FindKey(x, y[0].key, cs) == 0;
    hide Differences;
    hide Ascending;
    hide Fold;
    hide FindKey;
  }

  lemma BehindFirst(x: seq<Member<Json>>, k: string, cs: bool)
    requires Ascending(x, cs) && x != [] && SameKey(x[0].key, k, cs)
    ensures FindKey(x[1..], k, cs) == |x| - 1
  {
    if |x| > 1 {
      AscendingHead(x, 1, cs);
    }
    AscendingTail(x, cs);
    AscendingAbsent(x[1..], k, cs);
  }

  lemma AscendingTail(x: seq<Member<Json>>, cs: bool)
    requires Ascending(x, cs) && x != []
    ensures Ascending(x[1..], cs)
  {
  }

  // ---- one operation for each difference ----

  lemma {:induction false} OneEach(path: string, from: Json, to: Json, cs: bool)
    requires Regular(from, cs) && Regular(to, cs)
    ensures |Ops(path, from, to, cs)| == Differences(from, to, cs)
    decreases from, 1
  {
    match (from, to) {
      case (Arr(x), Arr(y)) =>
        OneEachElem(path, from, to, 0, cs);
        assert x[0..] == x && y[0..] == y;
      case (Obj(x), Obj(y)) =>
        SortedMembers(from, cs);
        SortedRegular(x, cs, cs);
        SortedRegular(y, cs, cs);
        SortDistinct(x, cs);
        SortDistinct(y, cs);
        SortedCount(x, y, cs);
        OneEachMember(path, from, SortList(x, cs), SortList(y, cs), cs);
      case _ =>
    }
  }

  lemma {:induction false} RestCounted(path: string, i: nat, n: nat, vs: seq<Json>)
    ensures |Removals(path, i, n)| == n && |Additions(path, vs)| == |vs|
    decreases n, |vs|
  {
    if n > 0 {
      RestCounted(path, i, n - 1, vs);
    }
    if vs == [] {
    } else {
      RestCounted(path, i, n, vs[1..]);
    }
  }

  lemma {:induction false} OneEachElem(path: string, from: Json, to: Json, i: nat, cs: bool)
    requires from.Arr? && to.Arr? && i <= |from.elems| && i <= |to.elems| && Regular(from, cs) && Regular(to, cs)
    ensures |ElemOps(path, from, to, i, cs)| == InElems(from.elems[i..], to.elems[i..], cs)
    decreases from, 0, |to.elems| - i
  {
    hide Ops;
    hide Differences;
    hide Digits;
    var x, y := from.elems[i..], to.elems[i..];
    if i < |from.elems| && i < |to.elems| {
      OneEach(path + "/" + Digits(i), from.elems[i], to.elems[i], cs);
      OneEachElem(path, from, to, i + 1, cs);
      assert x[1..] == from.elems[i + 1..] && y[1..] == to.elems[i + 1..];
    } else {
      RestCounted(path, i, |from.elems| - i, y);
    }
  }

  lemma {:induction false} OneEachMember(path: string, from: Json, x: seq<Member<Json>>, y: seq<Member<Json>>, cs: bool)
    requires MembersOf(x, from) && RegularValues(x, cs) && RegularValues(y, cs)
    requires Ascending(x, cs) && Ascending(y, cs)
    ensures |MemberOps(path, from, x, y, cs)| == InMembers(x, y, cs) + Missing(y, x, cs)
    decreases from, 0, |x| + |y|
  {
    hide Ops;
    hide InMember;
    hide InMembers;
    hide Missing;
    hide Differences;
    hide KeyLess;
    hide SameKey;
    hide EncodeToken;
    hide Regular;
    hide Ascending;
    if x == [] && y == [] {
      NothingCounted();
    } else if x == [] || (y != [] && KeyLess(y[0].key, x[0].key, cs)) {
      NoneBefore(x, y, cs);
      AscendingTail(y, cs);
      OneEachMember(path, from, x, y[1..], cs);
    } else if y == [] || KeyLess(x[0].key, y[0].key, cs) {
      NoneBefore(y, x, cs);
      AscendingTail(x, cs);
      FirstCounted(x, y, cs);
      OneEachMember(path, from, x[1..], y, cs);
    } else {
      KeyTrichotomy(x[0].key, y[0].key, cs);
      assert x[0] in from.members;
      Partners(x, y, cs);
      AscendingTail(x, cs);
      AscendingTail(y, cs);
      OneEach(path + "/" + EncodeToken(x[0].key), x[0].value, y[0].value, cs);
      OneEachMember(path, from, x[1..], y[1..], cs);
    }
  }

  lemma NothingCounted()
    ensures forall cs :: InMembers([], [], cs) == 0 && Missing([], [], cs) == 0
  {
  }

  lemma FirstCounted(x: seq<Member<Json>>, y: seq<Member<Json>>, cs: bool)
    requires x != []
    ensures InMembers(x, y, cs) == InMember(x[0], y, cs) + InMembers(x[1..], y, cs)
  {
  }
}
