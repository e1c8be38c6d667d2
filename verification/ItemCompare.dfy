/** `compare_json` on linked items. It sorts the members of every object it visits; the trees stay
    linked, and a whole one stays whole exactly if neither end of any list visited has moved. */
module ItemCompare {
  import opened Text
  import opened Json
  import opened Sorting
  import opened Compare
  import opened SiblingList
  import opened ItemTree
  import opened ItemPaths
  import opened ItemEdit
  import opened ItemSort
  import opened Arrange
  import Pointer
  import Patch

  /** A linked tree, the value it holds, whether it was whole at the start, and if so, whether it is now;
      and whether the head of its list is known to point back to nothing. */
  datatype View = View(tree: Shape, doc: Json, was: bool, whole: bool, orphan: bool := false)

  ghost predicate Seen(v: View)
    reads Items(v.tree)`child, Nodes(v.tree.kids)`next, Nodes(v.tree.kids)`prev
    reads Items(v.tree)`kind, Items(v.tree)`text, Items(v.tree)`number, Items(v.tree)`name
  {
    && Stores(v.tree.item, v.tree, v.doc, false) && (v.was ==> (Tree(v.tree) <==> v.whole))
    && (v.orphan ==> Orphaned(v.tree.item, Roots(v.tree.kids)))
  }

  lemma NodesFrom(ts: seq<Shape>, i: nat)
    requires i <= |ts|
    ensures Nodes(ts[i..]) <= Nodes(ts)
  {
    assert ts == ts[..i] + ts[i..];
    NodesConcat(ts[..i], ts[i..]);
  }

  /** The children from `i` on have not been visited. */
  ghost predicate Halfway(v: View, i: nat)
    reads Items(v.tree)`child, Nodes(v.tree.kids)`next, Nodes(v.tree.kids)`prev
    reads Items(v.tree)`kind, Items(v.tree)`text, Items(v.tree)`number, Items(v.tree)`name
  {
    Seen(v) && i <= |v.tree.kids| && (NodesFrom(v.tree.kids, i); v.was ==> Forest(v.tree.kids[i..]))
  }

  // ---- one child ----

  /** The items of one child are no others, and its top is not below itself. */
  ghost predicate Apart(t: Shape, i: nat)
    requires i < |t.kids|
  {
    var k := t.kids[i];
    t.item !in Nodes(t.kids) && Items(k) !! Nodes(Without(t.kids, i)) && k.item !in Nodes(k.kids)
  }

  lemma RootsElsewhere(ts: seq<Shape>, i: nat)
    requires i < |ts|
    ensures forall x :: x in Roots(ts) ==> x in Nodes(Without(ts, i)) || x == ts[i].item
  {
    hide Nodes;
    forall x | x in Roots(ts) ensures x in Nodes(Without(ts, i)) || x == ts[i].item {
      OtherRoot(ts, i, x);
    }
  }

  lemma NodesBehind(ts: seq<Shape>, i: nat)
    requires i < |ts|
    ensures Nodes(ts[i + 1..]) <= Nodes(Without(ts, i))
  {
    Parts(ts, i);
    NodesConcat(ts[..i], ts[i + 1..]);
  }

  /** The list of children, and the trees of all but one. */
  ghost predicate Linkage(t: Shape, i: nat, whole: bool)
    requires i < |t.kids|
    reads t.item`child, t.kids[i].item`next, t.kids[i].item`prev
    reads Nodes(Without(t.kids, i))`child, Nodes(Without(t.kids, i))`next, Nodes(Without(t.kids, i))`prev
  {
    RootsElsewhere(t.kids, i);
    ListOf(t.item, Roots(t.kids), whole) && Forest(Without(t.kids, i), whole)
  }

  /** What is known of everything but that child. */
  ghost predicate Around(v: View, i: nat)
    requires i < |v.tree.kids|
    reads v.tree.item`child, v.tree.kids[i].item`next, v.tree.kids[i].item`prev
    reads Nodes(Without(v.tree.kids, i))`child
    reads Nodes(Without(v.tree.kids, i))`next, Nodes(Without(v.tree.kids, i))`prev
  {
    NodesBehind(v.tree.kids, i);
    RootsElsewhere(v.tree.kids, i);
    && Linkage(v.tree, i, false) && (v.orphan ==> Orphaned(v.tree.item, Roots(v.tree.kids)))
    && (v.was ==> (Linkage(v.tree, i, true) <==> v.whole) && Forest(v.tree.kids[i + 1..]))
  }

  lemma Open(v: View, i: nat)
    requires Halfway(v, i) && i < |v.tree.kids| == |Pointer.Children(v.doc)|
    ensures var k := v.tree.kids[i];
      && Apart(v.tree, i) && Around(v, i) && Holds(v.tree, v.doc)
      && Seen(View(k, Pointer.Children(v.doc)[i], v.was, true))
  {
    var t := v.tree;
    KidStores(t, v.doc, i, false);
    ForestParts(t.kids, i, false);
    ForestParts(t.kids, i, true);
    assert t.kids[i..][0] == t.kids[i] && t.kids[i..][1..] == t.kids[i + 1..];
    hide Holds;
    hide Nodes;
    hide Strung;
    hide Without;
  }

  /** With another tree and value at that child. */
  ghost function Visited(v: View, i: nat, u: Shape, j: Json, whole: bool): View
    requires i < |v.tree.kids| && i < |Pointer.Children(v.doc)|
  {
    View(Shape(v.tree.item, v.tree.kids[i := u]), Patch.SetChild(v.doc, i, j), v.was, v.whole && whole, v.orphan)
  }

  /** The same list of children, still whole if `whole` is set, with the same items below; from `i` on, the
      same trees. */
  ghost predicate Alike(v: View, w: View, i: nat, whole: bool) {
    && w.was == v.was && w.whole == (v.whole && whole) && w.orphan == v.orphan && w.tree.item == v.tree.item
    && Nodes(w.tree.kids) == Nodes(v.tree.kids) && Roots(w.tree.kids) == Roots(v.tree.kids)
    && i <= |w.tree.kids| == |v.tree.kids| && w.tree.kids[i..] == v.tree.kids[i..]
  }

  /** The child at `i` has been visited, too: its value is `j` now. */
  ghost predicate Onward(v: View, w: View, i: nat, j: Json, whole: bool)
    requires i < |Pointer.Children(v.doc)|
    reads Items(w.tree)`child, Nodes(w.tree.kids)`next, Nodes(w.tree.kids)`prev
    reads Items(w.tree)`kind, Items(w.tree)`text, Items(w.tree)`number, Items(w.tree)`name
  {
    Halfway(w, i + 1) && w.doc == Patch.SetChild(v.doc, i, j) && Alike(v, w, i + 1, whole)
  }

  lemma Close(v: View, i: nat, k: View, j: Json, whole: bool)
    requires i < |v.tree.kids| && i < |Pointer.Children(v.doc)|
    requires Apart(v.tree, i) && Around(v, i) && Holds(v.tree, v.doc)
    requires Turned(View(v.tree.kids[i], Pointer.Children(v.doc)[i], v.was, true, k.orphan), k, j, whole)
    ensures Onward(v, Visited(v, i, k.tree, j, whole), i, j, whole)
  {
    Put(v, i, k.tree, j, whole);
    hide Halfway;
    hide Seen;
    hide Nodes;
  }

  lemma Put(v: View, i: nat, u: Shape, j: Json, whole: bool)
    requires i < |v.tree.kids| && i < |Pointer.Children(v.doc)|
    requires Apart(v.tree, i) && Around(v, i) && Holds(v.tree, v.doc)
    requires Seen(View(u, j, v.was, whole)) && u.item == v.tree.kids[i].item && Items(u) == Items(v.tree.kids[i])
    ensures var w := Visited(v, i, u, j, whole);
      && Halfway(w, i + 1) && Nodes(w.tree.kids) == Nodes(v.tree.kids) && Roots(w.tree.kids) == Roots(v.tree.kids)
  {
    var t, us := v.tree, v.tree.kids[i := u];
    ForestParts(t.kids, i, false);
    ForestPut(t.kids, i, u, false);
    ForestPut(t.kids, i, u, true);
    HoldsSetChild(t, v.doc, i, u, j);
    assert us[i + 1..] == t.kids[i + 1..];
    hide Holds;
    hide Nodes;
    hide Items;
    hide Strung;
    hide Without;
    hide Patch.SetChild;
  }

  // ---- comparing ----

  /** What a comparison leaves: the same items, from the same top, hold `j` now. */
  ghost predicate Turned(v: View, w: View, j: Json, whole: bool)
    reads Items(w.tree)`child, Nodes(w.tree.kids)`next, Nodes(w.tree.kids)`prev
    reads Items(w.tree)`kind, Items(w.tree)`text, Items(w.tree)`number, Items(w.tree)`name
  {
    && Seen(w) && w.doc == j && w.was == v.was && w.whole == whole && w.orphan == v.orphan
    && w.tree.item == v.tree.item && Items(w.tree) == Items(v.tree)
  }

  /** Of two objects, the head of the first one's list points back to nothing afterwards if its name was
      not below all others. */
  ghost predicate Orphans(a: Json, b: Json, cs: bool) {
    a.Obj? && b.Obj? && !FirstLowest(a.members, cs)
  }

  /** The answer of `compare_json`, and what it leaves of both. */
  ghost predicate Answered(same: bool, v: View, w: View, v': View, w': View, cs: bool)
    reads Items(v'.tree)`child, Nodes(v'.tree.kids)`next, Nodes(v'.tree.kids)`prev
    reads Items(v'.tree)`kind, Items(v'.tree)`text, Items(v'.tree)`number, Items(v'.tree)`name
    reads Items(w'.tree)`child, Nodes(w'.tree.kids)`next, Nodes(w'.tree.kids)`prev
    reads Items(w'.tree)`kind, Items(w'.tree)`text, Items(w'.tree)`number, Items(w'.tree)`name
  {
    var c := CompareTwo(v.doc, w.doc, cs);
    && same == c.same && Turned(v.(orphan := Orphans(v.doc, w.doc, cs)), v', c.left, c.leftWhole)
    && Turned(w.(orphan := Orphans(w.doc, v.doc, cs)), w', c.right, c.rightWhole)
  }

  /** The items of a child, of its surroundings, and of the whole. */
  lemma Reach(t: Shape, i: nat)
    requires i < |t.kids| && Apart(t, i)
    ensures var k, rest := t.kids[i], Nodes(Without(t.kids, i));
      && Items(k) <= Items(t) && rest <= Items(t) && Nodes(k.kids) <= Items(k) && k.item in Items(k)
      && Items(k) !! rest && t.item !in Items(k) && t.item in Items(t) && k.item !in Nodes(k.kids)
    ensures forall x :: x in Items(t) ==> allocated(x)
  {
    AllAllocated(t);
    ForestParts(t.kids, i);
  }

  lemma AnswerOpen(same: bool, v: View, w: View, v': View, w': View, cs: bool)
    requires Answered(same, v, w, v', w', cs)
    ensures var c := CompareTwo(v.doc, w.doc, cs);
      && same == c.same && Turned(v.(orphan := v'.orphan), v', c.left, c.leftWhole)
      && Turned(w.(orphan := w'.orphan), w', c.right, c.rightWhole)
    ensures v'.orphan == Orphans(v.doc, w.doc, cs)
  {
  }

  /** `compare_json` on one child of each; everything else stays as it is. */
  method CompareApart(x: Item, y: Item, cs: bool, ghost v: View, ghost w: View, ghost i: nat)
    returns (same: bool, ghost v': View, ghost w': View)
    requires i < |v.tree.kids| && i < |w.tree.kids| && i < |Pointer.Children(v.doc)| && i < |Pointer.Children(w.doc)|
    requires Apart(v.tree, i) && Around(v, i) && Holds(v.tree, v.doc)
    requires Apart(w.tree, i) && Around(w, i) && Holds(w.tree, w.doc)
    requires Seen(View(v.tree.kids[i], Pointer.Children(v.doc)[i], v.was, true)) && x == v.tree.kids[i].item
    requires Seen(View(w.tree.kids[i], Pointer.Children(w.doc)[i], w.was, true)) && y == w.tree.kids[i].item
    requires Items(v.tree) !! Items(w.tree)
    requires CStrings(Pointer.Children(v.doc)[i]) && CStrings(Pointer.Children(w.doc)[i])
    modifies Items(v.tree.kids[i])`child, Nodes(v.tree.kids[i].kids)`next, Nodes(v.tree.kids[i].kids)`prev
    modifies Items(w.tree.kids[i])`child, Nodes(w.tree.kids[i].kids)`next, Nodes(w.tree.kids[i].kids)`prev
    ensures Around(v, i) && Holds(v.tree, v.doc) && Around(w, i) && Holds(w.tree, w.doc)
    ensures var c := CompareTwo(Pointer.Children(v.doc)[i], Pointer.Children(w.doc)[i], cs);
      && same == c.same
      && Turned(View(v.tree.kids[i], Pointer.Children(v.doc)[i], v.was, true, v'.orphan), v', c.left, c.leftWhole)
      && Turned(View(w.tree.kids[i], Pointer.Children(w.doc)[i], w.was, true, w'.orphan), w', c.right, c.rightWhole)
    decreases Pointer.Children(v.doc)[i], 5
  {
    hide *;
    ghost var k, l, j, m := v.tree.kids[i], w.tree.kids[i], Pointer.Children(v.doc)[i], Pointer.Children(w.doc)[i];
    Reach(v.tree, i);
    Reach(w.tree, i);
    same, v', w' := CompareTrees(x, y, cs, View(k, j, v.was, true), View(l, m, w.was, true));
    AnswerOpen(same, View(k, j, v.was, true), View(l, m, w.was, true), v', w', cs);
  }

  /** One round of either loop. */
  method CompareKids(x: Item, y: Item, cs: bool, ghost v: View, ghost w: View, ghost i: nat)
    returns (same: bool, ghost v': View, ghost w': View)
    requires Halfway(v, i) && i < |v.tree.kids| == |Pointer.Children(v.doc)| && x == v.tree.kids[i].item
    requires Halfway(w, i) && i < |w.tree.kids| == |Pointer.Children(w.doc)| && y == w.tree.kids[i].item
    requires Items(v.tree) !! Items(w.tree)
    requires CStrings(Pointer.Children(v.doc)[i]) && CStrings(Pointer.Children(w.doc)[i])
    modifies Items(v.tree.kids[i])`child, Nodes(v.tree.kids[i].kids)`next, Nodes(v.tree.kids[i].kids)`prev
    modifies Items(w.tree.kids[i])`child, Nodes(w.tree.kids[i].kids)`next, Nodes(w.tree.kids[i].kids)`prev
    ensures var c := CompareTwo(Pointer.Children(v.doc)[i], Pointer.Children(w.doc)[i], cs);
      && same == c.same && Onward(v, v', i, c.left, c.leftWhole) && Onward(w, w', i, c.right, c.rightWhole)
    decreases Pointer.Children(v.doc)[i], 6
  {
    hide *;
    Open(v, i);
    Open(w, i);
    ghost var k, l;
    ghost var c := CompareTwo(Pointer.Children(v.doc)[i], Pointer.Children(w.doc)[i], cs);
    same, k, l := CompareApart(x, y, cs, v, w, i);
    Close(v, i, k, c.left, c.leftWhole);
    Close(w, i, l, c.right, c.rightWhole);
    v', w' := Visited(v, i, k.tree, c.left, c.leftWhole), Visited(w, i, l.tree, c.right, c.rightWhole);
  }

  // ---- the loops ----

  /** The children before `i` have been visited; their lists are whole if `whole` is set. */
  ghost predicate Going(v: View, w: View, i: nat, whole: bool)
    reads Items(w.tree)`child, Nodes(w.tree.kids)`next, Nodes(w.tree.kids)`prev
    reads Items(w.tree)`kind, Items(w.tree)`text, Items(w.tree)`number, Items(w.tree)`name
  {
    Halfway(w, i) && Alike(v, w, i, whole)
  }

  lemma KidCount(t: Shape, j: Json)
    requires Holds(t, j)
    ensures j.Arr? ==> |t.kids| == |Pointer.Children(j)| == |j.elems|
    ensures j.Obj? ==> |t.kids| == |Pointer.Children(j)| == |j.members|
  {
  }

  /** What has been walked, and what follows. */
  ghost function Then<T>(z: Walked<T>, w: Walked<T>): Walked<T> {
    Walked(w.same, z.left + w.left, z.right + w.right, z.leftWhole && w.leftWhole, z.rightWhole && w.rightWhole)
  }

  /** One more pair has been walked. */
  ghost function More<T>(z: Walked<T>, x: T, y: T, left: bool, right: bool): Walked<T> {
    Walked(true, z.left + [x], z.right + [y], z.leftWhole && left, z.rightWhole && right)
  }

  /** After the first pairs, equal so far, the walk goes on with the rest. */
  ghost predicate Walking(d: Json, xs: seq<Json>, ys: seq<Json>, cs: bool, z: Walked<Json>) {
    var i := |z.left|;
    && d.Arr? && (forall e :: e in xs ==> e in d.elems) && i == |z.right| && i <= |xs| && i <= |ys|
    && WalkElems(d, xs, ys, cs) == Then(z, WalkElems(d, xs[i..], ys[i..], cs))
  }

  lemma WalkStarts(d: Json, xs: seq<Json>, ys: seq<Json>, cs: bool, z: Walked<Json>)
    requires d.Arr? && xs == d.elems && z == Walked(true, [], [], true, true)
    ensures Walking(d, xs, ys, cs, z)
  {
    assert xs[0..] == xs && ys[0..] == ys;
    hide WalkElems;
  }

  lemma WalkEnds(d: Json, b: Json, cs: bool, z: Walked<Json>)
    requires d.Arr? && b.Arr? && Walking(d, d.elems, b.elems, cs, z)
    requires |z.left| == |d.elems| || |z.left| == |b.elems|
    ensures var i := |z.left|;
      CompareTwo(d, b, cs) == Compared(i == |d.elems| && i == |b.elems|, Arr(z.left + d.elems[i..]),
        Arr(z.right + b.elems[i..]), z.leftWhole, z.rightWhole)
  {
  }

  lemma ElemsUnfold(d: Json, us: seq<Json>, vs: seq<Json>, cs: bool) returns (rest: Walked<Json>)
    requires d.Arr? && (forall e :: e in us ==> e in d.elems) && us != [] && vs != []
    ensures var c, w := CompareTwo(us[0], vs[0], cs), WalkElems(d, us, vs, cs);
      && w.same == rest.same && w.left == [c.left] + rest.left && w.right == [c.right] + rest.right
      && w.leftWhole == (c.leftWhole && rest.leftWhole) && w.rightWhole == (c.rightWhole && rest.rightWhole)
      && rest == if c.same then WalkElems(d, us[1..], vs[1..], cs) else Walked(false, us[1..], vs[1..], true, true)
  {
    hide CompareTwo;
    var c := CompareTwo(us[0], vs[0], cs);
    rest := if c.same then WalkElems(d, us[1..], vs[1..], cs) else Walked(false, us[1..], vs[1..], true, true);
  }

  lemma WalkGoesOn(d: Json, xs: seq<Json>, ys: seq<Json>, cs: bool, z: Walked<Json>)
    requires Walking(d, xs, ys, cs, z) && |z.left| < |xs| && |z.left| < |ys|
    ensures var i, w := |z.left|, WalkElems(d, xs, ys, cs);
      var c := CompareTwo(xs[i], ys[i], cs);
      var m := More(z, c.left, c.right, c.leftWhole, c.rightWhole);
      if c.same then Walking(d, xs, ys, cs, m)
      else w == Walked(false, m.left + xs[i + 1..], m.right + ys[i + 1..], m.leftWhole, m.rightWhole)
  {
    hide WalkElems;
    hide CompareTwo;
    var i := |z.left|;
    var us, vs := xs[i..], ys[i..];
    assert forall e :: e in us ==> e in xs;
    assert us[1..] == xs[i + 1..] && us[0] == xs[i] && vs[1..] == ys[i + 1..] && vs[0] == ys[i];
    var c := CompareTwo(xs[i], ys[i], cs);
    var rest := ElemsUnfold(d, us, vs, cs);
    Regroup(z.left, c.left, rest.left);
    Regroup(z.right, c.right, rest.right);
  }

  lemma ArraysGoOn(d: Json, b: Json, cs: bool, z: Walked<Json>, i: nat)
    requires d.Arr? && b.Arr? && Walking(d, d.elems, b.elems, cs, z) && |z.left| == i < |d.elems| && i < |b.elems|
    ensures var c := CompareTwo(d.elems[i], b.elems[i], cs);
      var m := More(z, c.left, c.right, c.leftWhole, c.rightWhole);
      if c.same then Walking(d, d.elems, b.elems, cs, m)
      else CompareTwo(d, b, cs) == Compared(false, Arr(m.left + d.elems[i + 1..]), Arr(m.right + b.elems[i + 1..]),
        m.leftWhole, m.rightWhole)
  {
    WalkGoesOn(d, d.elems, b.elems, cs, z);
    hide WalkElems;
    hide Walking;
  }

  lemma Regroup<T>(l: seq<T>, x: T, r: seq<T>)
    ensures l + ([x] + r) == l + [x] + r
  {
  }

  /** The same for two sorted member lists. */
  ghost predicate WalkingOn(d: Json, xs: seq<Member<Json>>, ys: seq<Member<Json>>, cs: bool, z: Walked<Member<Json>>) {
    var i := |z.left|;
    && d.Obj? && (forall m :: m in xs ==> m in d.members) && i == |z.right| && i <= |xs| && i <= |ys|
    && WalkMembers(d, xs, ys, cs) == Then(z, WalkMembers(d, xs[i..], ys[i..], cs))
  }

  lemma MembersFirst(d: Json, xs: seq<Member<Json>>, ys: seq<Member<Json>>, cs: bool, z: Walked<Member<Json>>)
    requires d.Obj? && (forall m :: m in xs ==> m in d.members) && z == Walked(true, [], [], true, true)
    ensures WalkingOn(d, xs, ys, cs, z)
  {
    assert xs[0..] == xs && ys[0..] == ys;
    hide WalkMembers;
  }

  lemma MembersEnd(d: Json, xs: seq<Member<Json>>, ys: seq<Member<Json>>, cs: bool, z: Walked<Member<Json>>)
    requires WalkingOn(d, xs, ys, cs, z)
    requires var i := |z.left|; i < |xs| && i < |ys| ==> !SameKey(xs[i].key, ys[i].key, cs)
    ensures var i, w := |z.left|, WalkMembers(d, xs, ys, cs);
      && (w.same <==> i == |xs| && i == |ys|) && w.left == z.left + xs[i..] && w.right == z.right + ys[i..]
      && w.leftWhole == z.leftWhole && w.rightWhole == z.rightWhole
  {
    hide SameKey;
    var i := |z.left|;
    assert i < |xs| ==> xs[i..][0] == xs[i];
    assert i < |ys| ==> ys[i..][0] == ys[i];
  }

  lemma MembersUnfold(d: Json, us: seq<Member<Json>>, vs: seq<Member<Json>>, cs: bool)
    returns (rest: Walked<Member<Json>>)
    requires d.Obj? && (forall m :: m in us ==> m in d.members)
    requires us != [] && vs != [] && SameKey(us[0].key, vs[0].key, cs)
    ensures var c, w := CompareTwo(us[0].value, vs[0].value, cs), WalkMembers(d, us, vs, cs);
      && w.same == rest.same && w.left == [us[0].(value := c.left)] + rest.left
      && w.right == [vs[0].(value := c.right)] + rest.right
      && w.leftWhole == (c.leftWhole && rest.leftWhole) && w.rightWhole == (c.rightWhole && rest.rightWhole)
      && rest == if c.same then WalkMembers(d, us[1..], vs[1..], cs) else Walked(false, us[1..], vs[1..], true, true)
  {
    hide CompareTwo;
    var c := CompareTwo(us[0].value, vs[0].value, cs);
    rest := if c.same then WalkMembers(d, us[1..], vs[1..], cs) else Walked(false, us[1..], vs[1..], true, true);
  }

  lemma MembersGoOn(d: Json, xs: seq<Member<Json>>, ys: seq<Member<Json>>, cs: bool, z: Walked<Member<Json>>)
    requires WalkingOn(d, xs, ys, cs, z) && |z.left| < |xs| && |z.left| < |ys|
    requires SameKey(xs[|z.left|].key, ys[|z.left|].key, cs)
    ensures var i, w := |z.left|, WalkMembers(d, xs, ys, cs);
      var c := CompareTwo(xs[i].value, ys[i].value, cs);
      var m := More(z, xs[i].(value := c.left), ys[i].(value := c.right), c.leftWhole, c.rightWhole);
      if c.same then WalkingOn(d, xs, ys, cs, m)
      else w == Walked(false, m.left + xs[i + 1..], m.right + ys[i + 1..], m.leftWhole, m.rightWhole)
  {
    hide WalkMembers;
    hide CompareTwo;
    var i := |z.left|;
    var us, vs := xs[i..], ys[i..];
    assert us[1..] == xs[i + 1..] && us[0] == xs[i] && vs[1..] == ys[i + 1..] && vs[0] == ys[i];
    var c := CompareTwo(xs[i].value, ys[i].value, cs);
    var rest := MembersUnfold(d, us, vs, cs);
    Regroup(z.left, xs[i].(value := c.left), rest.left);
    Regroup(z.right, ys[i].(value := c.right), rest.right);
  }

  /** An array of which the first elements have been visited. */
  ghost function Elems(l: seq<Json>, xs: seq<Json>): (doc: Json)
    requires |l| <= |xs|
    ensures |Pointer.Children(doc)| == |xs|
  {
    Arr(l + xs[|l|..])
  }

  lemma NextElem(l: seq<Json>, xs: seq<Json>, e: Json)
    requires |l| < |xs|
    ensures Pointer.Children(Elems(l, xs))[|l|] == xs[|l|]
    ensures Patch.SetChild(Elems(l, xs), |l|, e) == Elems(l + [e], xs)
  {
    assert (l + xs[|l|..])[|l| := e] == l + [e] + xs[|l| + 1..];
  }

  /** An object of which the first members have been visited. */
  ghost function Members(l: seq<Member<Json>>, xs: seq<Member<Json>>): (doc: Json)
    requires |l| <= |xs|
    ensures |Pointer.Children(doc)| == |xs|
  {
    Obj(l + xs[|l|..])
  }

  lemma NextMember(l: seq<Member<Json>>, xs: seq<Member<Json>>, e: Json)
    requires |l| < |xs|
    ensures Pointer.Children(Members(l, xs))[|l|] == xs[|l|].value && Members(l, xs).members[|l|].key == xs[|l|].key
    ensures Patch.SetChild(Members(l, xs), |l|, e) == Members(l + [xs[|l|].(value := e)], xs)
  {
    assert WithValue(l + xs[|l|..], |l|, e) == l + [xs[|l|].(value := e)] + xs[|l| + 1..];
  }

  lemma ElemStrings(j: Json, i: nat)
    requires CStrings(j) && j.Arr? && i < |j.elems|
    ensures CStrings(j.elems[i]) && j.elems[i] < j
  {
  }

  /** A tree of which the first `i` children have been visited holds `doc`. */
  ghost predicate AtChild(v: View, w: View, i: nat, doc: Json, whole: bool)
    reads Items(w.tree)`child, Nodes(w.tree.kids)`next, Nodes(w.tree.kids)`prev
    reads Items(w.tree)`kind, Items(w.tree)`text, Items(w.tree)`number, Items(w.tree)`name
  {
    (doc.Arr? || doc.Obj?) && i <= |Pointer.Children(doc)| && Going(v, w, i, whole) && w.doc == doc
  }

  /** Where the cursor of the loop stands. */
  ghost predicate Points(x: Item?, v: View, i: nat) {
    x == if i < |Roots(v.tree.kids)| then Roots(v.tree.kids)[i] else null
  }

  lemma PointsFirst(v: View, w: View, i: nat, whole: bool)
    requires Going(v, w, i, whole)
    ensures Points(w.tree.item.child, v, 0)
  {
    hide Nodes;
    hide Forest;
    hide Holds;
  }

  lemma PointsNext(v: View, w: View, i: nat, whole: bool, x: Item)
    requires Going(v, w, i, whole) && 0 < i && Points(x, v, i - 1)
    ensures Points(x.next, v, i)
  {
    hide Nodes;
    hide Forest;
    hide Holds;
  }

  lemma PointsEnd(x: Item?, v: View, w: View, i: nat, doc: Json, whole: bool)
    requires AtChild(v, w, i, doc, whole) && Points(x, v, i)
    ensures x == null <==> i == |Pointer.Children(doc)|
    ensures x != null && doc.Obj? ==> x.name == Some(doc.members[i].key)
  {
    KidCount(w.tree, w.doc);
    if doc.Obj? && x != null {
      MemberKid(w.tree, doc, i);
    }
    hide Roots;
    hide Nodes;
    hide Forest;
    hide HoldMembers;
  }

  /** The child under the cursor is ready to be visited. */
  lemma Ready(x: Item, v: View, w: View, i: nat, doc: Json, whole: bool)
    requires AtChild(v, w, i, doc, whole) && Points(x, v, i)
    ensures Alike(v, w, i, whole) && Halfway(w, i) && i < |w.tree.kids| == |Pointer.Children(w.doc)|
    ensures x == w.tree.kids[i].item && w.doc == doc && (doc.Arr? || doc.Obj?)
    ensures Items(w.tree.kids[i]) <= Items(w.tree) == Items(v.tree)
    ensures Nodes(w.tree.kids[i].kids) <= Nodes(v.tree.kids)
  {
    KidCount(w.tree, w.doc);
    NodesOf(w.tree.kids, i);
    hide Nodes;
    hide Roots;
    hide Halfway;
  }

  lemma Visiting(x: Item, v: View, m: View, w: View, i: nat, p: bool, e: Json, q: bool)
    requires Alike(v, m, i, p) && (m.doc.Arr? || m.doc.Obj?) && i < |Pointer.Children(m.doc)|
    requires Onward(m, w, i, e, q) && Points(x, v, i)
    ensures AtChild(v, w, i + 1, Patch.SetChild(m.doc, i, e), p && q) && Points(x.next, v, i + 1)
  {
    assert i < |m.tree.kids| && m.tree.kids[i..][1..] == m.tree.kids[i + 1..];
    assert v.tree.kids[i..][1..] == v.tree.kids[i + 1..];
    assert Going(v, w, i + 1, p && q);
    PointsNext(v, w, i + 1, p && q, x);
    hide Going;
    hide Points;
  }

  /** One round of either loop. */
  method NextKids(x: Item, y: Item, cs: bool, ghost v: View, ghost m: View, ghost w: View, ghost n: View, ghost i: nat,
    ghost d: Json, ghost e: Json, ghost p: bool, ghost q: bool) returns (same: bool, ghost v': View, ghost w': View)
    requires AtChild(v, m, i, d, p) && Points(x, v, i) && AtChild(w, n, i, e, q) && Points(y, w, i)
    requires i < |Pointer.Children(d)| && CStrings(Pointer.Children(d)[i])
    requires i < |Pointer.Children(e)| && CStrings(Pointer.Children(e)[i])
    requires Items(v.tree) !! Items(w.tree)
    modifies Items(v.tree)`child, Nodes(v.tree.kids)`next, Nodes(v.tree.kids)`prev
    modifies Items(w.tree)`child, Nodes(w.tree.kids)`next, Nodes(w.tree.kids)`prev
    ensures var c := CompareTwo(Pointer.Children(d)[i], Pointer.Children(e)[i], cs);
      && same == c.same
      && AtChild(v, v', i + 1, Patch.SetChild(d, i, c.left), p && c.leftWhole)
      && AtChild(w, w', i + 1, Patch.SetChild(e, i, c.right), q && c.rightWhole)
    ensures Points(x.next, v, i + 1) && Points(y.next, w, i + 1)
    decreases Pointer.Children(d)[i], 7
  {
    hide *;
    ghost var c := CompareTwo(Pointer.Children(d)[i], Pointer.Children(e)[i], cs);
    Ready(x, v, m, i, d, p);
    Ready(y, w, n, i, e, q);
    same, v', w' := CompareKids(x, y, cs, m, n, i);
    Visiting(x, v, m, v', i, p, c.left, c.leftWhole);
    Visiting(y, w, n, w', i, q, c.right, c.rightWhole);
  }

  /** An array of which the first elements have been visited. */
  ghost predicate AtElem(v: View, w: View, xs: seq<Json>, l: seq<Json>, whole: bool)
    reads Items(w.tree)`child, Nodes(w.tree.kids)`next, Nodes(w.tree.kids)`prev
    reads Items(w.tree)`kind, Items(w.tree)`text, Items(w.tree)`number, Items(w.tree)`name
  {
    |l| <= |xs| && AtChild(v, w, |l|, Elems(l, xs), whole)
  }

  /** The state of the loop over two arrays. */
  ghost predicate InElems(x: Item?, y: Item?, v: View, m: View, w: View, n: View, z: Walked<Json>, cs: bool)
    reads Items(m.tree)`child, Nodes(m.tree.kids)`next, Nodes(m.tree.kids)`prev
    reads Items(m.tree)`kind, Items(m.tree)`text, Items(m.tree)`number, Items(m.tree)`name
    reads Items(n.tree)`child, Nodes(n.tree.kids)`next, Nodes(n.tree.kids)`prev
    reads Items(n.tree)`kind, Items(n.tree)`text, Items(n.tree)`number, Items(n.tree)`name
  {
    && v.doc.Arr? && w.doc.Arr? && Walking(v.doc, v.doc.elems, w.doc.elems, cs, z)
    && Points(x, v, |z.left|) && AtElem(v, m, v.doc.elems, z.left, z.leftWhole)
    && Points(y, w, |z.left|) && AtElem(w, n, w.doc.elems, z.right, z.rightWhole)
  }

  lemma ElemsStart(v: View, w: View, cs: bool) returns (z: Walked<Json>)
    requires Going(v, v, 0, true) && v.doc.Arr? && Going(w, w, 0, true) && w.doc.Arr?
    ensures InElems(v.tree.item.child, w.tree.item.child, v, v, w, w, z, cs) && z.left == []
  {
    PointsFirst(v, v, 0, true);
    PointsFirst(w, w, 0, true);
    z := Walked(true, [], [], true, true);
    WalkStarts(v.doc, v.doc.elems, w.doc.elems, cs, z);
    hide Going;
    hide Points;
    hide Walking;
    assert v.doc.elems == [] + v.doc.elems[0..] && w.doc.elems == [] + w.doc.elems[0..];
  }

  lemma ElemHere(x: Item?, v: View, w: View, xs: seq<Json>, l: seq<Json>, whole: bool)
    requires AtElem(v, w, xs, l, whole) && Points(x, v, |l|)
    ensures |l| <= |xs| && (x == null <==> |l| == |xs|)
  {
    PointsEnd(x, v, w, |l|, Elems(l, xs), whole);
    hide AtChild;
    hide Points;
  }

  lemma ElemsHere(x: Item?, y: Item?, v: View, m: View, w: View, n: View, z: Walked<Json>, cs: bool)
    requires InElems(x, y, v, m, w, n, z, cs)
    ensures v.doc.Arr? && w.doc.Arr? && |z.left| == |z.right| <= |v.doc.elems| && |z.right| <= |w.doc.elems|
    ensures (x == null <==> |z.left| == |v.doc.elems|) && (y == null <==> |z.left| == |w.doc.elems|)
  {
    ElemHere(x, v, m, v.doc.elems, z.left, z.leftWhole);
    ElemHere(y, w, n, w.doc.elems, z.right, z.rightWhole);
    hide AtElem;
    hide Points;
    hide WalkElems;
  }

  lemma ElemStop(v: View, w: View, xs: seq<Json>, l: seq<Json>, whole: bool)
    requires AtElem(v, w, xs, l, whole) && v.whole
    ensures |l| <= |xs| && Turned(v, w, Arr(l + xs[|l|..]), whole)
  {
  }

  /** The loop stops at a difference. */
  lemma ElemsDiffer(v: View, m: View, w: View, n: View, z: Walked<Json>, y: Walked<Json>, cs: bool)
    requires v.whole && !v.orphan && v.doc.Arr? && w.whole && !w.orphan && w.doc.Arr?
    requires Walking(v.doc, v.doc.elems, w.doc.elems, cs, z)
    requires |z.left| < |v.doc.elems| && |z.left| < |w.doc.elems|
    requires var c := CompareTwo(v.doc.elems[|z.left|], w.doc.elems[|z.left|], cs);
      !c.same && y == More(z, c.left, c.right, c.leftWhole, c.rightWhole)
    requires AtElem(v, m, v.doc.elems, y.left, y.leftWhole) && AtElem(w, n, w.doc.elems, y.right, y.rightWhole)
    ensures Answered(false, v, w, m, n, cs)
  {
    ArraysGoOn(v.doc, w.doc, cs, z, |z.left|);
    ElemStop(v, m, v.doc.elems, y.left, y.leftWhole);
    ElemStop(w, n, w.doc.elems, y.right, y.rightWhole);
    hide Walking;
    hide Turned;
    hide AtElem;
    hide CompareTwo;
  }

  /** The loop stops at the end of a list. */
  lemma ElemsEnd(x: Item?, y: Item?, v: View, m: View, w: View, n: View, z: Walked<Json>, cs: bool)
    requires InElems(x, y, v, m, w, n, z, cs) && (x == null || y == null)
    requires v.whole && !v.orphan && w.whole && !w.orphan
    ensures Answered(x == null && y == null, v, w, m, n, cs)
  {
    ElemsHere(x, y, v, m, w, n, z, cs);
    WalkEnds(v.doc, w.doc, cs, z);
    ElemStop(v, m, v.doc.elems, z.left, z.leftWhole);
    ElemStop(w, n, w.doc.elems, z.right, z.rightWhole);
    hide Walking;
    hide Turned;
    hide AtElem;
    hide CompareTwo;
    hide Points;
  }

  /** One round of the loop over two arrays. */
  method NextElems(x: Item, y: Item, cs: bool, ghost v: View, ghost m: View, ghost w: View, ghost n: View,
    ghost z: Walked<Json>) returns (same: bool, ghost v': View, ghost w': View, ghost z': Walked<Json>)
    requires InElems(x, y, v, m, w, n, z, cs) && v.whole && !v.orphan && w.whole && !w.orphan
    requires Items(v.tree) !! Items(w.tree) && CStrings(v.doc) && CStrings(w.doc)
    modifies Items(v.tree)`child, Nodes(v.tree.kids)`next, Nodes(v.tree.kids)`prev
    modifies Items(w.tree)`child, Nodes(w.tree.kids)`next, Nodes(w.tree.kids)`prev
    ensures same ==> InElems(x.next, y.next, v, v', w, w', z', cs) && |z'.left| == |z.left| + 1 <= |v.doc.elems|
    ensures !same ==> Answered(false, v, w, v', w', cs)
    decreases v.doc, 1
  {
    ElemsHere(x, y, v, m, w, n, z, cs);
    ghost var xs, ys := v.doc.elems, w.doc.elems;
    ElemStrings(v.doc, |z.left|);
    ElemStrings(w.doc, |z.left|);
    ghost var d, e := Elems(z.left, xs), Elems(z.right, ys);
    ghost var c := CompareTwo(xs[|z.left|], ys[|z.left|], cs);
    NextElem(z.left, xs, c.left);
    NextElem(z.right, ys, c.right);
    assert AtChild(v, m, |z.left|, d, z.leftWhole) && AtChild(w, n, |z.left|, e, z.rightWhole);
    hide *;
    same, v', w' := NextKids(x, y, cs, v, m, w, n, |z.left|, d, e, z.leftWhole, z.rightWhole);
    z' := More(z, c.left, c.right, c.leftWhole, c.rightWhole);
    ElemsOn(x.next, y.next, v, v', w, w', z, z', cs);
  }

  /** The state after one round. */
  lemma ElemsOn(x: Item?, y: Item?, v: View, m: View, w: View, n: View, z: Walked<Json>, z': Walked<Json>, cs: bool)
    requires v.whole && !v.orphan && v.doc.Arr? && w.whole && !w.orphan && w.doc.Arr?
    requires Walking(v.doc, v.doc.elems, w.doc.elems, cs, z)
    requires |z.left| < |v.doc.elems| && |z.left| < |w.doc.elems|
    requires var c := CompareTwo(v.doc.elems[|z.left|], w.doc.elems[|z.left|], cs);
      z' == More(z, c.left, c.right, c.leftWhole, c.rightWhole)
    requires Points(x, v, |z.left| + 1) && AtChild(v, m, |z.left| + 1, Elems(z'.left, v.doc.elems), z'.leftWhole)
    requires Points(y, w, |z.left| + 1) && AtChild(w, n, |z.left| + 1, Elems(z'.right, w.doc.elems), z'.rightWhole)
    ensures var c := CompareTwo(v.doc.elems[|z.left|], w.doc.elems[|z.left|], cs);
      if c.same then InElems(x, y, v, m, w, n, z', cs) else Answered(false, v, w, m, n, cs)
    ensures |z'.left| == |z.left| + 1
  {
    ArraysGoOn(v.doc, w.doc, cs, z, |z.left|);
    var c := CompareTwo(v.doc.elems[|z.left|], w.doc.elems[|z.left|], cs);
    if !c.same {
      ElemsDiffer(v, m, w, n, z, z', cs);
    }
    hide Walking;
    hide CompareTwo;
    hide AtChild;
    hide Points;
    hide Answered;
  }

  /** The loop over two arrays. */
  method CompareElems(a: Item, b: Item, cs: bool, ghost v: View, ghost w: View)
    returns (same: bool, ghost v': View, ghost w': View)
    requires Going(v, v, 0, true) && v.tree.item == a && v.doc.Arr? && v.whole && !v.orphan
    requires Going(w, w, 0, true) && w.tree.item == b && w.doc.Arr? && w.whole && !w.orphan
    requires Items(v.tree) !! Items(w.tree) && CStrings(v.doc) && CStrings(w.doc)
    modifies Items(v.tree)`child, Nodes(v.tree.kids)`next, Nodes(v.tree.kids)`prev
    modifies Items(w.tree)`child, Nodes(w.tree.kids)`next, Nodes(w.tree.kids)`prev
    ensures Answered(same, v, w, v', w', cs)
    decreases v.doc, 2
  {
    hide *;
    v', w' := v, w;
    ghost var z := ElemsStart(v, w, cs);
    var x, y := a.child, b.child;
    while x != null && y != null
      invariant InElems(x, y, v, v', w, w', z, cs)
      decreases |v.doc.elems| - |z.left|
    {
      same, v', w', z := NextElems(x, y, cs, v, v', w, w', z);
      if !same {
        return;
      }
      x, y := x.next, y.next;
    }
    ElemsEnd(x, y, v, v', w, w', z, cs);
    same := x == null && y == null;
  }

  // ---- two objects ----

  /** An object of which the first members have been visited. */
  ghost predicate AtMember(v: View, w: View, xs: seq<Member<Json>>, l: seq<Member<Json>>, whole: bool)
    reads Items(w.tree)`child, Nodes(w.tree.kids)`next, Nodes(w.tree.kids)`prev
    reads Items(w.tree)`kind, Items(w.tree)`text, Items(w.tree)`number, Items(w.tree)`name
  {
    |l| <= |xs| && AtChild(v, w, |l|, Members(l, xs), whole)
  }

  /** The state of the loop over two sorted objects; `d` is the first one before the sort. */
  ghost predicate InMembers(x: Item?, y: Item?, v: View, m: View, w: View, n: View, z: Walked<Member<Json>>, d: Json,
    cs: bool)
    reads Items(m.tree)`child, Nodes(m.tree.kids)`next, Nodes(m.tree.kids)`prev
    reads Items(m.tree)`kind, Items(m.tree)`text, Items(m.tree)`number, Items(m.tree)`name
    reads Items(n.tree)`child, Nodes(n.tree.kids)`next, Nodes(n.tree.kids)`prev
    reads Items(n.tree)`kind, Items(n.tree)`text, Items(n.tree)`number, Items(n.tree)`name
  {
    && v.doc.Obj? && w.doc.Obj? && WalkingOn(d, v.doc.members, w.doc.members, cs, z)
    && Points(x, v, |z.left|) && AtMember(v, m, v.doc.members, z.left, z.leftWhole)
    && Points(y, w, |z.left|) && AtMember(w, n, w.doc.members, z.right, z.rightWhole)
  }

  ghost predicate Within(xs: seq<Member<Json>>, d: Json) {
    d.Obj? && forall m :: m in xs ==> m in d.members
  }

  /** The answer of the loop over two sorted objects, and what it leaves of both. */
  ghost predicate Matched(same: bool, v: View, w: View, v': View, w': View, d: Json, cs: bool)
    reads Items(v'.tree)`child, Nodes(v'.tree.kids)`next, Nodes(v'.tree.kids)`prev
    reads Items(v'.tree)`kind, Items(v'.tree)`text, Items(v'.tree)`number, Items(v'.tree)`name
    reads Items(w'.tree)`child, Nodes(w'.tree.kids)`next, Nodes(w'.tree.kids)`prev
    reads Items(w'.tree)`kind, Items(w'.tree)`text, Items(w'.tree)`number, Items(w'.tree)`name
  {
    v.doc.Obj? && w.doc.Obj? && Within(v.doc.members, d) && (
      var c := WalkMembers(d, v.doc.members, w.doc.members, cs);
      && same == c.same && Turned(v, v', Obj(c.left), v.whole && c.leftWhole)
      && Turned(w, w', Obj(c.right), w.whole && c.rightWhole))
  }

  lemma MembersStart(v: View, w: View, d: Json, cs: bool) returns (z: Walked<Member<Json>>)
    requires Going(v, v, 0, true) && v.doc.Obj? && Going(w, w, 0, true) && w.doc.Obj? && Within(v.doc.members, d)
    ensures InMembers(v.tree.item.child, w.tree.item.child, v, v, w, w, z, d, cs) && z.left == []
  {
    PointsFirst(v, v, 0, true);
    PointsFirst(w, w, 0, true);
    z := Walked(true, [], [], true, true);
    MembersFirst(d, v.doc.members, w.doc.members, cs, z);
    hide Going;
    hide Points;
    hide WalkingOn;
    assert v.doc.members == [] + v.doc.members[0..] && w.doc.members == [] + w.doc.members[0..];
  }

  lemma MemberHere(x: Item?, v: View, w: View, xs: seq<Member<Json>>, l: seq<Member<Json>>, whole: bool)
    requires AtMember(v, w, xs, l, whole) && Points(x, v, |l|)
    ensures |l| <= |xs| && (x == null <==> |l| == |xs|)
    ensures x != null ==> x.name == Some(xs[|l|].key)
  {
    PointsEnd(x, v, w, |l|, Members(l, xs), whole);
    hide AtChild;
    hide Points;
  }

  lemma MembersHere(x: Item?, y: Item?, v: View, m: View, w: View, n: View, z: Walked<Member<Json>>, d: Json, cs: bool)
    requires InMembers(x, y, v, m, w, n, z, d, cs)
    ensures v.doc.Obj? && w.doc.Obj? && |z.left| == |z.right| <= |v.doc.members| && |z.right| <= |w.doc.members|
    ensures (x == null <==> |z.left| == |v.doc.members|) && (y == null <==> |z.left| == |w.doc.members|)
    ensures x != null ==> x.name == Some(v.doc.members[|z.left|].key)
    ensures y != null ==> y.name == Some(w.doc.members[|z.left|].key)
  {
    MemberHere(x, v, m, v.doc.members, z.left, z.leftWhole);
    MemberHere(y, w, n, w.doc.members, z.right, z.rightWhole);
    hide AtMember;
    hide Points;
    hide WalkMembers;
  }

  lemma MemberStop(v: View, w: View, xs: seq<Member<Json>>, l: seq<Member<Json>>, whole: bool)
    requires AtMember(v, w, xs, l, whole)
    ensures |l| <= |xs| && Turned(v, w, Obj(l + xs[|l|..]), v.whole && whole)
  {
  }

  /** The loop stops at the end of a list, or at two different keys. */
  lemma MembersStop(x: Item?, y: Item?, v: View, m: View, w: View, n: View, z: Walked<Member<Json>>, d: Json, cs: bool)
    requires InMembers(x, y, v, m, w, n, z, d, cs)
    requires x != null && y != null ==> x.name.Some? && y.name.Some? && !SameKey(x.name.value, y.name.value, cs)
    ensures Matched(x == null && y == null, v, w, m, n, d, cs)
  {
    MembersHere(x, y, v, m, w, n, z, d, cs);
    MembersEnd(d, v.doc.members, w.doc.members, cs, z);
    MemberStop(v, m, v.doc.members, z.left, z.leftWhole);
    MemberStop(w, n, w.doc.members, z.right, z.rightWhole);
    assert Within(v.doc.members, d);
    hide Turned;
    hide AtMember;
    hide WalkMembers;
    hide SameKey;
    hide Points;
  }

  /** The loop stops at two different values. */
  lemma MembersDiffer(v: View, m: View, w: View, n: View, z: Walked<Member<Json>>, u: Walked<Member<Json>>, d: Json,
    cs: bool)
    requires v.doc.Obj? && w.doc.Obj? && Within(v.doc.members, d)
    requires |u.left| == |u.right| <= |v.doc.members| && |u.left| <= |w.doc.members|
    requires WalkMembers(d, v.doc.members, w.doc.members, cs) ==
      Walked(false, u.left + v.doc.members[|u.left|..], u.right + w.doc.members[|u.left|..], u.leftWhole, u.rightWhole)
    requires AtMember(v, m, v.doc.members, u.left, u.leftWhole) && AtMember(w, n, w.doc.members, u.right, u.rightWhole)
    ensures Matched(false, v, w, m, n, d, cs)
  {
    MemberStop(v, m, v.doc.members, u.left, u.leftWhole);
    MemberStop(w, n, w.doc.members, u.right, u.rightWhole);
    hide Turned;
    hide AtMember;
    hide WalkMembers;
  }

  lemma MemberStrings(j: Json, i: nat)
    requires CStrings(j) && j.Obj? && i < |j.members|
    ensures CStrings(j.members[i].value)
  {
  }

  /** The two members under the cursors are ready to be visited. */
  lemma MembersReady(x: Item, y: Item, v: View, m: View, w: View, n: View, z: Walked<Member<Json>>, d: Json, cs: bool)
    returns (e: Json, f: Json, u: Walked<Member<Json>>)
    requires InMembers(x, y, v, m, w, n, z, d, cs) && CStrings(v.doc) && CStrings(w.doc)
    requires v.doc.Obj? && w.doc.Obj? && |z.left| < |v.doc.members| && |z.left| < |w.doc.members|
    ensures |z.left| == |z.right| && WalkingOn(d, v.doc.members, w.doc.members, cs, z)
    ensures e == Members(z.left, v.doc.members) && f == Members(z.right, w.doc.members)
    ensures |Pointer.Children(e)| == |v.doc.members| && |Pointer.Children(f)| == |w.doc.members|
    ensures var p, q := v.doc.members[|z.left|], w.doc.members[|z.left|];
      var c := CompareTwo(p.value, q.value, cs);
      && p.value < d && CStrings(p.value) && CStrings(q.value)
      && Pointer.Children(e)[|z.left|] == p.value && Pointer.Children(f)[|z.left|] == q.value
      && u == More(z, p.(value := c.left), q.(value := c.right), c.leftWhole, c.rightWhole)
      && |u.left| == |u.right| == |z.left| + 1
      && u.leftWhole == (z.leftWhole && c.leftWhole) && u.rightWhole == (z.rightWhole && c.rightWhole)
      && Patch.SetChild(e, |z.left|, c.left) == Members(u.left, v.doc.members)
      && Patch.SetChild(f, |z.left|, c.right) == Members(u.right, w.doc.members)
    ensures Points(x, v, |z.left|) && AtChild(v, m, |z.left|, e, z.leftWhole)
    ensures Points(y, w, |z.left|) && AtChild(w, n, |z.left|, f, z.rightWhole)
  {
    MemberStrings(v.doc, |z.left|);
    MemberStrings(w.doc, |z.left|);
    var p, q := v.doc.members[|z.left|], w.doc.members[|z.left|];
    e, f := Members(z.left, v.doc.members), Members(z.right, w.doc.members);
    var c := CompareTwo(p.value, q.value, cs);
    u := More(z, p.(value := c.left), q.(value := c.right), c.leftWhole, c.rightWhole);
    NextMember(z.left, v.doc.members, c.left);
    NextMember(z.right, w.doc.members, c.right);
    assert p in d.members;
    hide WalkMembers;
    hide CompareTwo;
    hide CStrings;
    hide AtChild;
    hide Points;
    hide Members;
    hide Patch.SetChild;
    hide Pointer.Children;
  }

  /** The state after one round. */
  lemma MembersOn(x: Item?, y: Item?, v: View, m: View, w: View, n: View, z: Walked<Member<Json>>,
    u: Walked<Member<Json>>, d: Json, cs: bool)
    requires v.doc.Obj? && w.doc.Obj? && WalkingOn(d, v.doc.members, w.doc.members, cs, z)
    requires |z.left| < |v.doc.members| && |z.left| < |w.doc.members|
    requires SameKey(v.doc.members[|z.left|].key, w.doc.members[|z.left|].key, cs)
    requires var p, q := v.doc.members[|z.left|], w.doc.members[|z.left|];
      var c := CompareTwo(p.value, q.value, cs);
      u == More(z, p.(value := c.left), q.(value := c.right), c.leftWhole, c.rightWhole)
    requires Points(x, v, |z.left| + 1) && AtChild(v, m, |z.left| + 1, Members(u.left, v.doc.members), u.leftWhole)
    requires Points(y, w, |z.left| + 1) && AtChild(w, n, |z.left| + 1, Members(u.right, w.doc.members), u.rightWhole)
    ensures
      if CompareTwo(v.doc.members[|z.left|].value, w.doc.members[|z.left|].value, cs).same
      then InMembers(x, y, v, m, w, n, u, d, cs) else Matched(false, v, w, m, n, d, cs)
    ensures |u.left| == |z.left| + 1
  {
    MembersGoOn(d, v.doc.members, w.doc.members, cs, z);
    assert Within(v.doc.members, d) && |u.left| == |u.right| == |z.left| + 1;
    hide WalkingOn;
    hide WalkMembers;
    hide CompareTwo;
    hide AtChild;
    hide Points;
    hide SameKey;
    hide Matched;
    if !CompareTwo(v.doc.members[|z.left|].value, w.doc.members[|z.left|].value, cs).same {
      MembersDiffer(v, m, w, n, z, u, d, cs);
    }
  }

  /** One round of the loop over two sorted objects. */
  method NextMembers(x: Item, y: Item, cs: bool, ghost v: View, ghost m: View, ghost w: View, ghost n: View,
    ghost z: Walked<Member<Json>>, ghost d: Json)
    returns (same: bool, ghost v': View, ghost w': View, ghost z': Walked<Member<Json>>)
    requires InMembers(x, y, v, m, w, n, z, d, cs)
    requires Items(v.tree) !! Items(w.tree) && CStrings(v.doc) && CStrings(w.doc)
    modifies Items(v.tree)`child, Nodes(v.tree.kids)`next, Nodes(v.tree.kids)`prev
    modifies Items(w.tree)`child, Nodes(w.tree.kids)`next, Nodes(w.tree.kids)`prev
    ensures same ==> InMembers(x.next, y.next, v, v', w, w', z', d, cs) && |z'.left| == |z.left| + 1 <= |v.doc.members|
    ensures !same ==> Matched(false, v, w, v', w', d, cs)
    decreases d, 1
  {

    MembersHere(x, y, v, m, w, n, z, d, cs);
    if !SameKey(x.name.value, y.name.value, cs) {
      MembersStop(x, y, v, m, w, n, z, d, cs);
      return false, m, n, z;
    }
    same, v', w', z' := MatchValues(x, y, cs, v, m, w, n, z, d);
  }

  method MatchValues(x: Item, y: Item, cs: bool, ghost v: View, ghost m: View, ghost w: View, ghost n: View,
    ghost z: Walked<Member<Json>>, ghost d: Json)
    returns (same: bool, ghost v': View, ghost w': View, ghost z': Walked<Member<Json>>)
    requires InMembers(x, y, v, m, w, n, z, d, cs)
    requires x.name.Some? && y.name.Some? && SameKey(x.name.value, y.name.value, cs)
    requires Items(v.tree) !! Items(w.tree) && CStrings(v.doc) && CStrings(w.doc)
    modifies Items(v.tree)`child, Nodes(v.tree.kids)`next, Nodes(v.tree.kids)`prev
    modifies Items(w.tree)`child, Nodes(w.tree.kids)`next, Nodes(w.tree.kids)`prev
    ensures same ==> InMembers(x.next, y.next, v, v', w, w', z', d, cs) && |z'.left| == |z.left| + 1 <= |v.doc.members|
    ensures !same ==> Matched(false, v, w, v', w', d, cs)
    decreases d, 0
  {
    hide *;
    MembersHere(x, y, v, m, w, n, z, d, cs);
    ghost var e, f;
    e, f, z' := MembersReady(x, y, v, m, w, n, z, d, cs);
    same, v', w' := NextKids(x, y, cs, v, m, w, n, |z.left|, e, f, z.leftWhole, z.rightWhole);
    MembersOn(x.next, y.next, v, v', w, w', z, z', d, cs);
  }

  /** The loop over two sorted objects. */
  method CompareMembers(a: Item, b: Item, cs: bool, ghost v: View, ghost w: View, ghost d: Json)
    returns (same: bool, ghost v': View, ghost w': View)
    requires Going(v, v, 0, true) && v.tree.item == a && v.doc.Obj? && Within(v.doc.members, d)
    requires Going(w, w, 0, true) && w.tree.item == b && w.doc.Obj?
    requires Items(v.tree) !! Items(w.tree) && CStrings(v.doc) && CStrings(w.doc)
    modifies Items(v.tree)`child, Nodes(v.tree.kids)`next, Nodes(v.tree.kids)`prev
    modifies Items(w.tree)`child, Nodes(w.tree.kids)`next, Nodes(w.tree.kids)`prev
    ensures Matched(same, v, w, v', w', d, cs)
    decreases d, 2
  {
    hide *;
    v', w' := v, w;
    ghost var z := MembersStart(v, w, d, cs);
    var x, y := a.child, b.child;
    while x != null && y != null
      invariant InMembers(x, y, v, v', w, w', z, d, cs)
      decreases |v.doc.members| - |z.left|
    {
      same, v', w', z := NextMembers(x, y, cs, v, v', w, w', z, d);
      if !same {
        return;
      }
      x, y := x.next, y.next;
    }
    MembersStop(x, y, v, v', w, w', z, d, cs);
    same := x == null && y == null;
  }

  // ---- sorting both ----

  lemma SortedStrings(j: Json, cs: bool)
    requires CStrings(j) && j.Obj?
    ensures CStrings(Obj(SortList(j.members, cs))) && Within(SortList(j.members, cs), j)
  {
    SortedKept(j, cs);
    hide SortList;
    var ms := SortList(j.members, cs);
    forall i | 0 <= i < |ms| ensures NulFree(ms[i].key) && CStrings(ms[i].value) {
      assert ms[i] in j.members;
    }
  }

  lemma SortedSeen(u: View)
    requires Seen(u) && (u.was ==> forall k :: 0 <= k < |u.tree.kids| ==> Tree(u.tree.kids[k]))
    ensures Going(u, u, 0, true)
  {
    var ts := u.tree.kids;
    assert ts[0..] == ts;
    ForestEach(ts, false);
    ForestEach(ts, true);
    hide Disjoint;
    hide Forest;
    hide Holds;
    hide Nodes;
    hide Strung;
  }

  lemma SameNodes(t: Shape, u: Shape)
    requires t.item == u.item && Items(t) == Items(u) && t.item !in Nodes(t.kids) && u.item !in Nodes(u.kids)
    ensures Nodes(t.kids) == Nodes(u.kids)
  {
    assert Nodes(t.kids) == Items(t) - {t.item} && Nodes(u.kids) == Items(u) - {u.item};
  }

  ghost function SortedView(v: View, s: Shape, cs: bool): View
    requires v.doc.Obj?
  {
    var ms := v.doc.members;
    View(s, Obj(SortList(ms, cs)), v.was, EndsStay(ms, cs), !FirstLowest(ms, cs))
  }

  lemma SortedOrphan(s: Shape, ms: seq<Member<Json>>, cs: bool)
    requires Tree(s, false) && Holds(s, Obj(SortList(ms, cs)))
    requires s.kids != [] && !FirstLowest(ms, cs) ==> s.kids[0].item.prev == null
    ensures !FirstLowest(ms, cs) ==> Orphaned(s.item, Roots(s.kids))
  {
    if !FirstLowest(ms, cs) {
      SortPermutes(ms, cs);
      assert |SortList(ms, cs)| == |multiset(SortList(ms, cs))| == |multiset(ms)| == |ms|;
      assert Roots(s.kids)[0] == s.kids[0].item;
    }
    hide SortList;
    hide Forest;
  }

  /** `sort_object` on one of the two. */
  method SortSide(a: Item, cs: bool, ghost v: View) returns (ghost u: View)
    requires Seen(v) && v.tree.item == a && v.doc.Obj? && v.whole && CStrings(v.doc)
    modifies a`child, Nodes(v.tree.kids)`next, Nodes(v.tree.kids)`prev
    ensures u == SortedView(v, u.tree, cs) && u.doc == Obj(SortList(v.doc.members, cs))
    ensures Going(u, u, 0, true) && u.tree.item == a && Items(u.tree) == Items(v.tree)
    ensures Nodes(u.tree.kids) == Nodes(v.tree.kids)
  {
    AllAllocated(v.tree);
    assert v.was ==> Tree(v.tree);
    hide Tree;
    hide Holds;
    hide EndsStay;
    hide CStrings;
    hide SortList;
    hide Nodes;
    hide FirstLowest;
    ghost var s := SortKids(a, cs, v.tree, v.doc);
    u := SortedView(v, s, cs);
    SortedOrphan(s, v.doc.members, cs);
    SortedSeen(u);
    assert Going(u, u, 0, true);
    SameNodes(v.tree, s);
  }

  /** Two objects: both are sorted, then their members are compared. */
  method CompareObjects(a: Item, b: Item, cs: bool, ghost v: View, ghost w: View)
    returns (same: bool, ghost v': View, ghost w': View)
    requires Seen(v) && Seen(w) && v.tree.item == a && w.tree.item == b && Items(v.tree) !! Items(w.tree)
    requires v.doc.Obj? && v.whole && !v.orphan && CStrings(v.doc)
    requires w.doc.Obj? && w.whole && !w.orphan && CStrings(w.doc)
    modifies Items(v.tree)`child, Nodes(v.tree.kids)`next, Nodes(v.tree.kids)`prev
    modifies Items(w.tree)`child, Nodes(w.tree.kids)`next, Nodes(w.tree.kids)`prev
    ensures Answered(same, v, w, v', w', cs)
    decreases v.doc, 3
  {
    hide *;
    AllAllocated(v.tree);
    AllAllocated(w.tree);
    ItemsApart(v.tree, w.tree);
    SortedStrings(v.doc, cs);
    SortedStrings(w.doc, cs);
    ghost var m := SortSide(a, cs, v);
    ghost var n := SortSide(b, cs, w);
    same, v', w' := CompareMembers(a, b, cs, m, n, v.doc);
    ObjectsAnswered(same, v, w, m, n, v', w', cs);
  }

  lemma ItemsApart(t: Shape, u: Shape)
    requires Items(t) !! Items(u)
    ensures Nodes(t.kids) <= Items(t) && t.item in Items(t) && Nodes(u.kids) <= Items(u) && u.item in Items(u)
  {
  }

  lemma ObjectsAnswered(same: bool, v: View, w: View, m: View, n: View, v': View, w': View, cs: bool)
    requires v.doc.Obj? && m == SortedView(v, m.tree, cs) && w.doc.Obj? && n == SortedView(w, n.tree, cs)
    requires m.tree.item == v.tree.item && Items(m.tree) == Items(v.tree)
    requires n.tree.item == w.tree.item && Items(n.tree) == Items(w.tree)
    requires Matched(same, m, n, v', w', v.doc, cs)
    ensures Answered(same, v, w, v', w', cs)
  {
    hide WalkMembers;
    hide SortList;
    hide EndsStay;
    hide Seen;
    hide Items;
  }

  // ---- the comparison ----

  /** The type bits of an item that holds a value of that kind. */
  function KindBits(j: Json): int {
    match j
    case Invalid => 0
    case Null => NULL
    case False => FALSE
    case True => TRUE
    case Number(_) => NUMBER
    case Str(_) => STRING
    case Arr(_) => ARRAY
    case Obj(_) => OBJECT
  }

  lemma Kinds(v: View)
    requires Seen(v)
    ensures v.tree.item.kind == KindBits(v.doc)
    ensures v.doc.Number? ==> v.tree.item.number == v.doc.d
    ensures v.doc.Str? ==> v.tree.item.text == Some(v.doc.s)
  {
    hide Tree;
  }

  /** Values of different kinds, or of one kind without children. */
  lemma SimpleAnswered(v: View, w: View, cs: bool)
    requires Seen(v) && Seen(w) && v.whole && !v.orphan && w.whole && !w.orphan
    requires KindBits(v.doc) == KindBits(w.doc) ==> !v.doc.Arr? && !v.doc.Obj?
    ensures Answered(CompareTwo(v.doc, w.doc, cs).same, v, w, v, w, cs)
    ensures KindBits(v.doc) != KindBits(w.doc) ==> !CompareTwo(v.doc, w.doc, cs).same
    ensures v.doc.Str? && w.doc.Str? ==> (CompareTwo(v.doc, w.doc, cs).same <==> v.doc.s == w.doc.s)
    ensures v.doc.Number? && w.doc.Number? ==>
      (CompareTwo(v.doc, w.doc, cs).same <==> ValueInt(v.doc.d) == ValueInt(w.doc.d) && CompareDouble(v.doc.d, w.doc.d))
    ensures KindBits(v.doc) == KindBits(w.doc) && KindBits(v.doc) in {0, NULL, FALSE, TRUE} ==>
      CompareTwo(v.doc, w.doc, cs).same
  {
    hide Seen;
    hide CompareDouble;
    hide ValueInt;
  }

  lemma ArraysStart(v: View)
    requires Seen(v) && v.whole
    ensures Going(v, v, 0, true)
  {
    assert v.tree.kids[0..] == v.tree.kids;
  }

  /** `compare_json` on two items: the answer, both trees linked still, on the same items, with the value
      its sorting leaves, and whole, if they were, exactly as `Arrange.CompareTwo` says. */
  method CompareTrees(a: Item, b: Item, cs: bool, ghost v: View, ghost w: View)
    returns (same: bool, ghost v': View, ghost w': View)
    requires Seen(v) && Seen(w) && v.tree.item == a && w.tree.item == b && Items(v.tree) !! Items(w.tree)
    requires v.whole && !v.orphan && w.whole && !w.orphan && CStrings(v.doc) && CStrings(w.doc)
    modifies Items(v.tree)`child, Nodes(v.tree.kids)`next, Nodes(v.tree.kids)`prev
    modifies Items(w.tree)`child, Nodes(w.tree.kids)`next, Nodes(w.tree.kids)`prev
    ensures Answered(same, v, w, v', w', cs)
    decreases v.doc, 4
  {
    v', w' := v, w;
    Kinds(v);
    Kinds(w);
    hide Seen;
    hide Going;
    hide Answered;
    hide Items;
    hide Nodes;
    hide CStrings;
    hide CompareDouble;
    hide ValueInt;
    hide CompareTwo;
    if a.kind != b.kind {
      SimpleAnswered(v, w, cs);
      return false, v, w;
    }
    if a.kind == ARRAY {
      ArraysStart(v);
      ArraysStart(w);
      same, v', w' := CompareElems(a, b, cs, v, w);
    } else if a.kind == OBJECT {
      same, v', w' := CompareObjects(a, b, cs, v, w);
    } else {
      SimpleAnswered(v, w, cs);
      same := if a.kind == NUMBER then ValueInt(a.number) == ValueInt(b.number) && CompareDouble(a.number, b.number)
        else if a.kind == STRING then a.text.value == b.text.value
        else true;
    }
  }
}
