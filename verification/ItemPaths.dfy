/** Places in a tree of items, and what an edit of the items below one place leaves intact elsewhere. */
module ItemPaths {
  import opened Json
  import opened SiblingList
  import opened ItemTree
  import Pointer
  import Patch

  ghost predicate Valid(t: Shape, p: seq<nat>)
    decreases |p|
  {
    p == [] || (p[0] < |t.kids| && Valid(t.kids[p[0]], p[1..]))
  }

  /** The tree at a place. */
  ghost function Sub(t: Shape, p: seq<nat>): Shape
    requires Valid(t, p)
    decreases |p|
  {
    if p == [] then t else Sub(t.kids[p[0]], p[1..])
  }

  /** The tree with another one at that place. */
  ghost function Graft(t: Shape, p: seq<nat>, u: Shape): Shape
    requires Valid(t, p)
    decreases |p|
  {
    if p == [] then u else Shape(t.item, t.kids[p[0] := Graft(t.kids[p[0]], p[1..], u)])
  }

  // ---- forests in parts ----

  lemma {:induction false} NodesConcat(a: seq<Shape>, b: seq<Shape>)
    ensures Nodes(a + b) == Nodes(a) + Nodes(b) && Below(a + b) == Below(a) + Below(b)
    ensures Roots(a + b) == Roots(a) + Roots(b)
  {
    if a == [] {
      assert a + b == b && Nodes([]) == {} && Below([]) == {} && Roots([]) == [];
    } else {
      NodesConcat(a[1..], b);
      assert (a + b)[0] == a[0] && (a + b)[1..] == a[1..] + b;
    }
  }

  lemma {:induction false} ForestConcat(a: seq<Shape>, b: seq<Shape>, whole: bool := true)
    ensures Forest(a + b, whole) <==> Forest(a, whole) && Forest(b, whole) && Nodes(a) !! Nodes(b)
  {
    hide Tree;
    hide Items;
    if a == [] {
      assert a + b == b && Nodes([]) == {} && Forest([], whole);
    } else {
      ForestConcat(a[1..], b, whole);
      NodesConcat(a[1..], b);
      assert (a + b)[0] == a[0] && (a + b)[1..] == a[1..] + b;
    }
  }

  lemma OneTree(u: Shape, whole: bool := true)
    ensures Nodes([u]) == Items(u) && Below([u]) == Nodes(u.kids) && Roots([u]) == [u.item]
    ensures Forest([u], whole) <==> Tree(u, whole)
  {
    hide Tree;
    hide Items;
    assert [u][1..] == [] && Nodes([]) == {} && Below([]) == {} && Roots([]) == [] && Forest([], whole);
  }

  lemma Parts<T>(ts: seq<T>, i: nat)
    requires i < |ts|
    ensures ts == ts[..i] + ([ts[i]] + ts[i + 1..]) && Without(ts, i) == ts[..i] + ts[i + 1..]
    ensures forall u :: ts[i := u] == ts[..i] + ([u] + ts[i + 1..])
  {
  }

  lemma {:induction false} NodesAt(ts: seq<Shape>, x: Item) returns (i: nat)
    requires x in Nodes(ts)
    ensures i < |ts| && x in Items(ts[i])
  {
    if x in Items(ts[0]) {
      i := 0;
    } else {
      i := NodesAt(ts[1..], x);
      i := i + 1;
    }
  }

  lemma {:induction false} NodesOf(ts: seq<Shape>, i: nat)
    requires i < |ts|
    ensures Items(ts[i]) <= Nodes(ts) && Roots(ts)[i] == ts[i].item && ts[i].item in Items(ts[i])
  {
    if i == 0 {
    } else {
      NodesOf(ts[1..], i - 1);
    }
  }

  /** A tree of a forest, and the others. */
  lemma ForestParts(ts: seq<Shape>, i: nat, whole: bool := true)
    requires i < |ts|
    ensures Nodes(ts) == Nodes(Without(ts, i)) + Items(ts[i])
    ensures Roots(Without(ts, i)) == Without(Roots(ts), i) && Roots(ts)[i] == ts[i].item
    ensures Forest(ts, whole)
       <==> Forest(Without(ts, i), whole) && Tree(ts[i], whole) && Items(ts[i]) !! Nodes(Without(ts, i))
  {
    var a, b, one := ts[..i], ts[i + 1..], [ts[i]];
    Parts(ts, i);
    Parts(Roots(ts), i);
    OneTree(ts[i], whole);
    NodesConcat(a, b);
    NodesConcat(one, b);
    NodesConcat(a, one + b);
    ForestConcat(a, b, whole);
    ForestConcat(one, b, whole);
    ForestConcat(a, one + b, whole);
    hide Forest;
    hide Tree;
    hide Items;
    hide Nodes;
    assert Roots(ts)[..i] == Roots(a) && Roots(ts)[i + 1..] == Roots(b);
  }

  /** Another tree in its place, with the same top. */
  lemma ForestPut(ts: seq<Shape>, i: nat, u: Shape, whole: bool := true)
    requires i < |ts| && u.item == ts[i].item
    ensures Nodes(ts[i := u]) == Nodes(Without(ts, i)) + Items(u) && Roots(ts[i := u]) == Roots(ts)
    ensures Forest(ts[i := u], whole)
       <==> Forest(Without(ts, i), whole) && Tree(u, whole) && Items(u) !! Nodes(Without(ts, i))
  {
    var us := ts[i := u];
    ForestParts(us, i, whole);
    ForestParts(ts, i, whole);
    hide Forest;
    hide Tree;
    hide Items;
    hide Nodes;
    assert Without(us, i) == Without(ts, i);
    assert Roots(us) == Roots(ts) by {
      Parts(ts, i);
      NodesConcat(ts[..i], [ts[i]] + ts[i + 1..]);
      NodesConcat([ts[i]], ts[i + 1..]);
      NodesConcat(ts[..i], [u] + ts[i + 1..]);
      NodesConcat([u], ts[i + 1..]);
      OneTree(u);
      OneTree(ts[i]);
    }
  }

  // ---- grafting ----

  lemma {:induction false} SubInside(t: Shape, p: seq<nat>)
    requires Valid(t, p)
    ensures Items(Sub(t, p)) <= Items(t) && (p != [] ==> Items(Sub(t, p)) <= Nodes(t.kids))
    decreases |p|
  {
    if p == [] {
    } else {
      SubInside(t.kids[p[0]], p[1..]);
      ForestParts(t.kids, p[0]);
    }
  }

  /** The items outside the tree at a place. */
  ghost function Rim(t: Shape, p: seq<nat>): set<Item>
    requires Valid(t, p)
  {
    Items(t) - Items(Sub(t, p))
  }

  lemma Left<T>(x: T, k: set<T>, others: set<T>, s: set<T>)
    requires x !in k && k !! others && s <= k
    ensures ({x} + (others + k)) - s == {x} + others + (k - s)
  {
  }

  lemma RimStep(t: Shape, p: seq<nat>)
    requires Valid(t, p) && p != [] && t.item !in Nodes(t.kids)
    requires Items(t.kids[p[0]]) !! Nodes(Without(t.kids, p[0]))
    ensures Rim(t, p) == {t.item} + Nodes(Without(t.kids, p[0])) + Rim(t.kids[p[0]], p[1..])
  {
    var i, k := p[0], t.kids[p[0]];
    SubInside(t, p);
    SubInside(k, p[1..]);
    ForestParts(t.kids, i);
    assert Items(t) == {t.item} + Nodes(t.kids) && Sub(t, p) == Sub(k, p[1..]);
    hide Nodes;
    hide Items;
    hide Forest;
    hide Sub;
    Left(t.item, Items(k), Nodes(Without(t.kids, i)), Items(Sub(t, p)));
  }

  /** The tops of the children are outside, but for the one at the place itself. */
  lemma RootsOutside(t: Shape, p: seq<nat>)
    requires Valid(t, p) && p != [] && t.item !in Nodes(t.kids)
    requires Items(t.kids[p[0]]) !! Nodes(Without(t.kids, p[0]))
    requires p[1..] != [] ==> t.kids[p[0]].item !in Nodes(t.kids[p[0]].kids)
    ensures forall x :: x in Roots(t.kids) ==> x in Rim(t, p) || x == Sub(t, p).item
  {
    var i, k := p[0], t.kids[p[0]];
    RimStep(t, p);
    SubInside(k, p[1..]);
    assert k.item in Items(k);
    assert p[1..] == [] ==> Sub(k, p[1..]) == k;
    hide Nodes;
    forall x | x in Roots(t.kids) ensures x in Rim(t, p) || x == Sub(t, p).item {
      OtherRoot(t.kids, i, x);
    }
  }

  lemma OtherRoot(ts: seq<Shape>, i: nat, x: Item)
    requires i < |ts| && x in Roots(ts)
    ensures x in Nodes(Without(ts, i)) || x == ts[i].item
  {
    ForestParts(ts, i);
    InWithout(Roots(ts), i, x);
    hide Without;
    hide Roots;
    hide Nodes;
  }

  lemma InWithout<T>(xs: seq<T>, i: nat, x: T)
    requires i < |xs| && x in xs
    ensures x == xs[i] || x in Without(xs, i)
  {
    Parts(xs, i);
  }

  /** Everything outside the tree at a place is as in a whole tree. */
  ghost predicate Ring(t: Shape, p: seq<nat>, whole: bool := true)
    requires Valid(t, p)
    reads Rim(t, p)`child, Rim(t, p)`next, Rim(t, p)`prev, Sub(t, p).item`next, Sub(t, p).item`prev
    decreases |p|
  {
    p == [] || (
      var k, others := t.kids[p[0]], Without(t.kids, p[0]);
      && t.item !in Nodes(t.kids) && Items(k) !! Nodes(others)
      && (RimStep(t, p); Ring(k, p[1..], whole) && Forest(others, whole))
      && (RootsOutside(t, p); ListOf(t.item, Roots(t.kids), whole)))
  }

  lemma {:induction false} RingTree(t: Shape, p: seq<nat>, whole: bool := true)
    requires Valid(t, p)
    ensures Tree(t, whole) <==> Ring(t, p, whole) && Tree(Sub(t, p), whole)
    decreases |p|
  {
    if p == [] {
    } else {
      ForestParts(t.kids, p[0], whole);
      RingTree(t.kids[p[0]], p[1..], whole);
      SubInside(t, p);
    }
  }

  /** If the rest is as in a whole tree, a tree put in that place makes the whole a tree. */
  lemma {:induction false} RingGraft(t: Shape, p: seq<nat>, u: Shape, whole: bool := true)
    requires Valid(t, p) && Ring(t, p, whole) && Tree(u, whole)
    requires u.item == Sub(t, p).item && Items(u) !! Rim(t, p)
    ensures Tree(Graft(t, p, u), whole) && Items(Graft(t, p, u)) == Rim(t, p) + Items(u)
    ensures Graft(t, p, u).item == t.item
    decreases |p|
  {
    if p == [] {
    } else {
      var i, k := p[0], t.kids[p[0]];
      RimStep(t, p);
      SubInside(k, p[1..]);
      ForestParts(t.kids, i, whole);
      RingGraft(k, p[1..], u, whole);
      ForestPut(t.kids, i, Graft(k, p[1..], u), whole);
    }
  }

  // ---- the value held ----

  lemma {:induction false} HoldElemsConcat(a: seq<Shape>, b: seq<Shape>, x: seq<Json>, y: seq<Json>)
    requires |a| == |x|
    ensures HoldElems(a + b, x + y) <==> HoldElems(a, x) && HoldElems(b, y)
  {
    hide Holds;
    if a == [] {
      assert a + b == b && x + y == y;
    } else {
      HoldElemsConcat(a[1..], b, x[1..], y);
      assert (a + b)[0] == a[0] && (a + b)[1..] == a[1..] + b;
      assert (x + y)[0] == x[0] && (x + y)[1..] == x[1..] + y;
    }
  }

  lemma {:induction false} HoldMembersConcat(a: seq<Shape>, b: seq<Shape>, x: seq<Member<Json>>, y: seq<Member<Json>>)
    requires |a| == |x|
    ensures HoldMembers(a + b, x + y) <==> HoldMembers(a, x) && HoldMembers(b, y)
  {
    hide Holds;
    if a == [] {
      assert a + b == b && x + y == y;
    } else {
      HoldMembersConcat(a[1..], b, x[1..], y);
      assert (a + b)[0] == a[0] && (a + b)[1..] == a[1..] + b;
      assert (x + y)[0] == x[0] && (x + y)[1..] == x[1..] + y;
    }
  }

  /** The child at a position, and the others. */
  lemma HoldElemsParts(ts: seq<Shape>, es: seq<Json>, i: nat)
    requires i < |ts| == |es|
    ensures HoldElems(ts, es) <==> HoldElems(Without(ts, i), Without(es, i)) && Holds(ts[i], es[i])
  {
    Parts(ts, i);
    Parts(es, i);
    assert HoldElems([ts[i]], [es[i]]) <==> Holds(ts[i], es[i]) by {
      assert [ts[i]][1..] == [] && [es[i]][1..] == [] && HoldElems([], []);
    }
    HoldElemsConcat(ts[..i], [ts[i]] + ts[i + 1..], es[..i], [es[i]] + es[i + 1..]);
    HoldElemsConcat([ts[i]], ts[i + 1..], [es[i]], es[i + 1..]);
    HoldElemsConcat(ts[..i], ts[i + 1..], es[..i], es[i + 1..]);
    hide HoldElems;
    hide Holds;
  }

  lemma HoldMembersParts(ts: seq<Shape>, ms: seq<Member<Json>>, i: nat)
    requires i < |ts| == |ms|
    ensures var u, m, rest := ts[i], ms[i], HoldMembers(Without(ts, i), Without(ms, i));
      HoldMembers(ts, ms) <==> rest && u.item.name == Some(m.key) && Holds(u, m.value)
  {
    Parts(ts, i);
    Parts(ms, i);
    assert HoldMembers([ts[i]], [ms[i]]) <==> ts[i].item.name == Some(ms[i].key) && Holds(ts[i], ms[i].value) by {
      assert [ts[i]][1..] == [] && [ms[i]][1..] == [] && HoldMembers([], []);
    }
    HoldMembersConcat(ts[..i], [ts[i]] + ts[i + 1..], ms[..i], [ms[i]] + ms[i + 1..]);
    HoldMembersConcat([ts[i]], ts[i + 1..], [ms[i]], ms[i + 1..]);
    HoldMembersConcat(ts[..i], ts[i + 1..], ms[..i], ms[i + 1..]);
    hide HoldMembers;
    hide Holds;
  }

  /** What a child of a tree holds. */
  lemma HoldsChild(t: Shape, j: Json, i: nat)
    requires Holds(t, j) && i < |Pointer.Children(j)|
    ensures i < |t.kids| && Holds(t.kids[i], Pointer.Children(j)[i])
    ensures j.Obj? ==> t.kids[i].item.name == Some(j.members[i].key)
  {
    if j.Arr? {
      HoldElemsParts(t.kids, j.elems, i);
    } else {
      HoldMembersParts(t.kids, j.members, i);
    }
  }

  /** Another value held at that child. */
  lemma HoldsSetChild(t: Shape, j: Json, i: nat, u: Shape, v: Json)
    requires Holds(t, j) && i < |Pointer.Children(j)| && i < |t.kids|
    requires u.item == t.kids[i].item && Holds(u, v)
    ensures Holds(Shape(t.item, t.kids[i := u]), Patch.SetChild(j, i, v))
  {
    var us := t.kids[i := u];
    assert Without(us, i) == Without(t.kids, i);
    if j.Arr? {
      HoldElemsParts(t.kids, j.elems, i);
      assert Without(j.elems[i := v], i) == Without(j.elems, i);
      HoldElemsParts(us, j.elems[i := v], i);
    } else {
      HoldMembersParts(t.kids, j.members, i);
      assert Without(WithValue(j.members, i, v), i) == Without(j.members, i);
      HoldMembersParts(us, WithValue(j.members, i, v), i);
    }
    hide HoldElems;
    hide HoldMembers;
    hide Without;
  }

  lemma {:induction false} SubHolds(t: Shape, j: Json, p: seq<nat>)
    requires Holds(t, j) && Pointer.ValidPath(j, p)
    ensures Valid(t, p) && Holds(Sub(t, p), Pointer.At(j, p))
    decreases |p|
  {
    hide Holds;
    if p == [] {
    } else {
      HoldsChild(t, j, p[0]);
      SubHolds(t.kids[p[0]], Pointer.Children(j)[p[0]], p[1..]);
    }
  }

  lemma {:induction false} GraftHolds(t: Shape, j: Json, p: seq<nat>, u: Shape, v: Json)
    requires Holds(t, j) && Pointer.ValidPath(j, p) && Valid(t, p) && u.item == Sub(t, p).item && Holds(u, v)
    ensures Holds(Graft(t, p, u), Patch.Put(j, p, v))
    decreases |p|
  {
    hide Holds;
    if p == [] {
    } else {
      var i, k := p[0], Pointer.Children(j)[p[0]];
      HoldsChild(t, j, i);
      GraftHolds(t.kids[i], k, p[1..], u, v);
      GraftTop(t.kids[i], p[1..], u);
      HoldsSetChild(t, j, i, Graft(t.kids[i], p[1..], u), Patch.Put(k, p[1..], v));
    }
  }

  lemma GraftTop(t: Shape, p: seq<nat>, u: Shape)
    requires Valid(t, p) && u.item == Sub(t, p).item
    ensures Graft(t, p, u).item == t.item
  {
  }
}
