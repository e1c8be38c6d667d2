/** `sort_object` on an object anywhere in a tree of items: the children change places, each with all
    that is below it. */
module ItemSort {
  import opened Text
  import opened Json
  import opened Sorting
  import opened Ordering
  import opened SiblingList
  import opened ListSort
  import opened ItemTree
  import opened ItemPaths
  import opened ItemEdit
  import Arrange

  // ---- forests and members, child by child ----

  ghost predicate Disjoint(ts: seq<Shape>) {
    forall i, j :: 0 <= i < j < |ts| ==> Items(ts[i]) !! Items(ts[j])
  }

  lemma {:induction false} ForestEach(ts: seq<Shape>, whole: bool)
    ensures Forest(ts, whole) <==> Disjoint(ts) && forall i :: 0 <= i < |ts| ==> Tree(ts[i], whole)
  {
    hide Tree;
    hide Items;
    if ts == [] {
    } else {
      var t := ts[1..];
      ForestEach(t, whole);
      assert forall i :: 0 < i < |ts| ==> ts[i] == t[i - 1];
      if Items(ts[0]) !! Nodes(t) {
        forall j | 0 < j < |ts| ensures Items(ts[0]) !! Items(ts[j]) {
          NodesOf(t, j - 1);
        }
      } else {
        var x :| x in Items(ts[0]) && x in Nodes(t);
        var i := NodesAt(t, x);
        assert x in Items(ts[i + 1]);
      }
      if Disjoint(t) && forall j :: 0 < j < |ts| ==> Items(ts[0]) !! Items(ts[j]) {
        assert Disjoint(ts);
      }
      if Disjoint(ts) {
        assert forall i, j :: 0 <= i < j < |t| ==> t[i] == ts[i + 1] && t[j] == ts[j + 1];
        assert Disjoint(t);
      }
    }
  }

  lemma {:induction false} MembersEach(ts: seq<Shape>, ms: seq<Member<Json>>)
    ensures HoldMembers(ts, ms) <==> |ts| == |ms| && forall i :: 0 <= i < |ts| ==>
      ts[i].item.name == Some(ms[i].key) && Holds(ts[i], ms[i].value)
  {
    hide Holds;
    if ts == [] || ms == [] {
    } else {
      MembersEach(ts[1..], ms[1..]);
      assert forall i :: 0 < i < |ts| ==> ts[i] == ts[1..][i - 1];
      assert forall i :: 0 < i < |ms| ==> ms[i] == ms[1..][i - 1];
    }
  }

  // ---- the children in another order ----

  lemma NodesWithin(us: seq<Shape>, ts: seq<Shape>)
    requires forall u :: u in us ==> u in ts
    ensures Nodes(us) <= Nodes(ts)
  {
    hide Items;
    forall x | x in Nodes(us) ensures x in Nodes(ts) {
      var k := NodesAt(us, x);
      assert us[k] in ts;
      var i :| 0 <= i < |ts| && ts[i] == us[k];
      NodesOf(ts, i);
    }
  }

  lemma PickNodes(ts: seq<Shape>, order: seq<nat>)
    requires Permutes(order, |ts|)
    ensures Nodes(Pick(ts, order)) == Nodes(ts)
  {
    var us := Pick(ts, order);
    hide Nodes;
    forall t | t in ts ensures t in us {
      var i :| 0 <= i < |ts| && ts[i] == t;
      assert i in order;
      var k :| 0 <= k < |order| && order[k] == i;
      assert us[k] == t;
    }
    NodesWithin(us, ts);
    NodesWithin(ts, us);
  }

  lemma PickRoots(ts: seq<Shape>, order: seq<nat>)
    requires Permutes(order, |ts|)
    ensures Roots(Pick(ts, order)) == Pick(Roots(ts), order)
  {
    var us := Pick(ts, order);
    hide Nodes;
    hide Items;
    hide Roots;
    forall k | 0 <= k < |us| ensures Roots(us)[k] == Pick(Roots(ts), order)[k] {
      NodesOf(us, k);
      NodesOf(ts, order[k]);
    }
  }

  lemma PickForest(ts: seq<Shape>, order: seq<nat>, whole: bool)
    requires Permutes(order, |ts|) && Forest(ts, whole)
    ensures Forest(Pick(ts, order), whole)
  {
    var us := Pick(ts, order);
    ForestEach(ts, whole);
    ForestEach(us, whole);
    hide Forest;
    hide Tree;
    hide Items;
    forall i, j | 0 <= i < j < |us| ensures Items(us[i]) !! Items(us[j]) {
      assert order[i] != order[j];
      if order[i] < order[j] {
        assert Items(ts[order[i]]) !! Items(ts[order[j]]);
      } else {
        assert Items(ts[order[j]]) !! Items(ts[order[i]]);
      }
    }
  }

  lemma PickMembers(ts: seq<Shape>, ms: seq<Member<Json>>, order: seq<nat>)
    requires HoldMembers(ts, ms) && |ts| == |ms| && Permutes(order, |ts|)
    ensures HoldMembers(Pick(ts, order), Pick(ms, order))
  {
    MembersEach(ts, ms);
    MembersEach(Pick(ts, order), Pick(ms, order));
    hide HoldMembers;
    hide Holds;
  }

  // ---- the sort ----

  /** The names of the children are the keys. */
  lemma KidNames(t: Shape, j: Json)
    requires Holds(t, j) && j.Obj? && CStrings(j)
    ensures |t.kids| == |j.members| && Named(Roots(t.kids)) && Keys(Tags(Roots(t.kids))) == Keys(j.members)
  {
    MembersEach(t.kids, j.members);
    var xs := Roots(t.kids);
    forall i | 0 <= i < |xs| ensures xs[i].name == Some(j.members[i].key) {
      NodesOf(t.kids, i);
    }
    hide Tags;
    hide Roots;
  }

  lemma SameEnds<T, U>(u: seq<Member<T>>, v: seq<Member<U>>, cs: bool)
    requires Keys(u) == Keys(v)
    ensures FirstLowest(u, cs) <==> FirstLowest(v, cs)
    ensures Arrange.EndsStay(v, cs) <==> FirstLowest(u, cs) && LastHighest(u, cs)
  {
    hide KeyLess;
    assert |u| == |Keys(u)| == |v| && forall i :: 0 <= i < |u| ==> u[i].key == Keys(u)[i] == v[i].key;
  }

  /** The sorted items are those at the sorted positions. */
  lemma SortedItemsPicked(xs: seq<Item>, ys: seq<Item>, ms: seq<Member<Json>>, cs: bool)
    requires Named(xs) && Named(ys) && Keys(Tags(xs)) == Keys(ms) && Tags(ys) == Sorting.SortList(Tags(xs), cs)
    ensures var order := Order(Keys(ms), cs); Permutes(order, |xs|) && |ms| == |xs| && ys == Pick(xs, order)
  {
    hide Sorting.SortList;
    hide Order;
    var order, u := Order(Keys(ms), cs), Tags(xs);
    SortPicks(u, cs);
    hide Tags;
    hide Named;
    assert |ys| == |Tags(ys)| == |order|;
    forall k | 0 <= k < |ys| ensures ys[k] == Pick(xs, order)[k] {
      assert Tags(ys)[k] == Pick(u, order)[k] == u[order[k]];
    }
  }

  /** The object with its children in sorted order. */
  ghost function Sorted(t: Shape, j: Json, cs: bool): Shape
    requires j.Obj? && |t.kids| == |j.members|
  {
    OrderPermutes(Keys(j.members), cs);
    Shape(t.item, Pick(t.kids, Order(Keys(j.members), cs)))
  }

  lemma SortedShape(t: Shape, j: Json, cs: bool, whole: bool)
    requires j.Obj? && |t.kids| == |j.members| && t.item !in Nodes(t.kids) && Forest(t.kids, whole)
    ensures var u := Sorted(t, j, cs);
      && Items(u) == Items(t) && u.item !in Nodes(u.kids) && Forest(u.kids, whole)
      && (forall k :: 0 <= k < |u.kids| ==> Tree(u.kids[k], whole))
      && (Tree(u, whole) <==> ListOf(t.item, Roots(u.kids), whole))
  {
    var order := Order(Keys(j.members), cs);
    OrderPermutes(Keys(j.members), cs);
    PickNodes(t.kids, order);
    PickForest(t.kids, order, whole);
    ForestEach(Pick(t.kids, order), whole);
    hide Order;
    hide Permutes;
    hide Pick;
    hide Disjoint;
    hide Forest;
    hide Nodes;
  }

  lemma SortedHolds(t: Shape, j: Json, cs: bool)
    requires Holds(t, j) && j.Obj? && |t.kids| == |j.members|
    ensures Holds(Sorted(t, j, cs), Obj(Sorting.SortList(j.members, cs)))
  {
    var order := Order(Keys(j.members), cs);
    SortPicks(j.members, cs);
    PickMembers(t.kids, j.members, order);
    hide Order;
    hide Permutes;
    hide Pick;
    hide HoldMembers;
    hide Sorting.SortList;
  }

  lemma SortedRoots(t: Shape, j: Json, xs: seq<Item>, ys: seq<Item>, cs: bool)
    requires j.Obj? && |t.kids| == |j.members| && xs == Roots(t.kids) && Named(xs) && Named(ys)
    requires Keys(Tags(xs)) == Keys(j.members) && Tags(ys) == Sorting.SortList(Tags(xs), cs)
    ensures Roots(Sorted(t, j, cs).kids) == ys
  {
    SortedItemsPicked(xs, ys, j.members, cs);
    PickRoots(t.kids, Order(Keys(j.members), cs));
    hide Order;
    hide Permutes;
    hide Pick;
    hide Tags;
    hide Named;
  }

  /** The list of the tops is sorted; what is below them stays as it is. */
  method SortTops(a: Item, cs: bool, ghost ts: seq<Shape>, ghost xs: seq<Item>, ghost tags: seq<Member<Item>>)
    returns (ghost ys: seq<Item>)
    requires Strung(a, xs) && Named(xs) && xs == Roots(ts) && Forest(ts, false) && a !in Nodes(ts) && tags == Tags(xs)
    modifies a`child, Nodes(ts)`next, Nodes(ts)`prev
    ensures Forest(ts, false) && (old(Forest(ts)) ==> Forest(ts))
    ensures Strung(a, ys) && Named(ys) && Tags(ys) == Sorting.SortList(tags, cs)
    ensures ys != [] && !FirstLowest(tags, cs) ==> ys[0].prev == null
    ensures old(Children(a, xs)) ==> (Children(a, ys) <==> FirstLowest(tags, cs) && LastHighest(tags, cs))
  {
    hide *;
    KidsAllocated(ts);
    RootsApart(ts, false);
    assert Below(ts) <= Nodes(ts);
    ghost var below := Below(ts);
    assert forall i :: 0 <= i < |xs| ==> xs[i] in Nodes(ts) && xs[i] !in below;
    ys := SortObject(a, cs, xs);
  }

  /** What sorting starts from. */
  lemma BeforeSorting(a: Item, cs: bool, t: Shape, j: Json)
    requires Stores(a, t, j, false) && j.Obj? && CStrings(j)
    ensures var xs := Roots(t.kids);
      && Strung(a, xs) && Named(xs) && Forest(t.kids, false) && a !in Nodes(t.kids) && t.item == a && Holds(t, j)
      && (Tree(t) ==> Children(a, xs) && Forest(t.kids))
      && |t.kids| == |j.members| && Keys(Tags(xs)) == Keys(j.members)
      && (FirstLowest(Tags(xs), cs) <==> FirstLowest(j.members, cs))
      && (Arrange.EndsStay(j.members, cs) <==> FirstLowest(Tags(xs), cs) && LastHighest(Tags(xs), cs))
  {
    hide *;
    Unfolded(a, t, j);
    KidNames(t, j);
    SameEnds(Tags(Roots(t.kids)), j.members, cs);
  }

  lemma Unfolded(a: Item, t: Shape, j: Json)
    requires Stores(a, t, j, false)
    ensures Strung(a, Roots(t.kids)) && Forest(t.kids, false) && a !in Nodes(t.kids) && t.item == a && Holds(t, j)
    ensures Tree(t) ==> Children(a, Roots(t.kids)) && Forest(t.kids)
  {
  }

  /** `sort_object`: the tree stays linked and holds the sorted members. If it was whole, it still is
      exactly when neither end of the list has moved, and its children are whole in any case. */
  method SortKids(a: Item, cs: bool, ghost t: Shape, ghost j: Json) returns (ghost u: Shape)
    requires Stores(a, t, j, false) && j.Obj? && CStrings(j)
    modifies a`child, Nodes(t.kids)`next, Nodes(t.kids)`prev
    ensures Stores(a, u, Obj(Sorting.SortList(j.members, cs)), false) && Items(u) == Items(t)
    ensures old(Tree(t)) ==>
      (Tree(u) <==> Arrange.EndsStay(j.members, cs)) && forall k :: 0 <= k < |u.kids| ==> Tree(u.kids[k])
    ensures u.kids != [] && !FirstLowest(j.members, cs) ==> u.kids[0].item.prev == null
  {
    hide *;
    BeforeSorting(a, cs, t, j);
    KidsAllocated(t.kids);
    AllAllocated(t);
    ghost var xs, was := Roots(t.kids), Tree(t);
    ghost var ys := SortTops(a, cs, t.kids, xs, Tags(xs));
    AfterSorting(a, cs, t, j, xs, ys, was);
    u := Sorted(t, j, cs);
  }

  lemma AfterSorting(a: Item, cs: bool, t: Shape, j: Json, xs: seq<Item>, ys: seq<Item>, was: bool)
    requires j.Obj? && |t.kids| == |j.members| && xs == Roots(t.kids) && Named(xs) && Named(ys)
    requires Keys(Tags(xs)) == Keys(j.members) && Tags(ys) == Sorting.SortList(Tags(xs), cs)
    requires t.item == a && Strung(a, ys) && a !in Nodes(t.kids) && Forest(t.kids, false) && Holds(t, j)
    requires was ==> Forest(t.kids)
    requires ys != [] && !FirstLowest(j.members, cs) ==> ys[0].prev == null
    ensures var u := Sorted(t, j, cs);
      && Stores(a, u, Obj(Sorting.SortList(j.members, cs)), false) && Items(u) == Items(t)
      && (was ==> (Tree(u) <==> Children(a, ys)) && forall k :: 0 <= k < |u.kids| ==> Tree(u.kids[k]))
      && (u.kids != [] && !FirstLowest(j.members, cs) ==> u.kids[0].item.prev == null)
  {
    var u := Sorted(t, j, cs);
    SortedRoots(t, j, xs, ys, cs);
    SortedHolds(t, j, cs);
    SortedShape(t, j, cs, false);
    if was {
      SortedShape(t, j, cs, true);
    }
    if u.kids != [] {
      NodesOf(u.kids, 0);
    }
    hide Holds;
    hide Sorting.SortList;
    hide Tags;
    hide Named;
    hide Forest;
    hide Sorted;
    hide FirstLowest;
  }
}
