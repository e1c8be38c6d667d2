/** The operation `test` on linked items: it compares in place, and so sorts what it compares. */
module ItemTest {
  import opened Text
  import opened Json
  import opened SiblingList
  import opened ItemTree
  import opened ItemPaths
  import opened ItemEdit
  import opened ItemCompare
  import Arrange
  import ListSort
  import PatchSteps
  import Sorting
  import Pointer
  import Patch
  import PatchInverse
  import PatchStrings

  /** Whether a whole document is whole after a test of `value` at `path`: if anything is compared, no
      list visited in it may have moved at an end. */
  ghost predicate WholeTest(j: Json, path: string, value: Option<Json>, cs: bool) {
    var p := Pointer.GetItem(j, path, cs);
    p.None? || value.None? || Arrange.CompareTwo(Pointer.At(j, p.value), value.value, cs).leftWhole
  }

  /** What is left of a patch: its value has been compared, and so sorted. */
  ghost function TestedPatch(j: Json, path: string, patch: Json, cs: bool): Json {
    var p, value := Pointer.GetItem(j, path, cs), Patch.Lookup(patch, "value", cs);
    if p.None? || value.None? then patch
    else
      Patch.SetChild(patch, FindKey(patch.members, "value", cs),
        Arrange.CompareTwo(Pointer.At(j, p.value), value.value, cs).right)
  }

  lemma {:induction false} SubGraft(t: Shape, p: seq<nat>, u: Shape)
    requires Valid(t, p)
    ensures Valid(Graft(t, p, u), p) && Sub(Graft(t, p, u), p) == u
    decreases |p|
  {
    if p == [] {
    } else {
      SubGraft(t.kids[p[0]], p[1..], u);
    }
  }

  /** A tree put in a whole surrounding is whole exactly if the outcome is. */
  lemma Grafted(t: Shape, p: seq<nat>, u: Shape, whole: bool)
    requires Valid(t, p) && Ring(t, p, whole) && u.item == Sub(t, p).item && Items(u) == Items(Sub(t, p))
    ensures Tree(Graft(t, p, u), whole) <==> Tree(u, whole)
    ensures Tree(u, whole) ==> Items(Graft(t, p, u)) == Items(t) && Graft(t, p, u).item == t.item
  {
    SubGraft(t, p, u);
    RimApart(t, p);
    if Tree(u, whole) {
      RingGraft(t, p, u, whole);
      Whole(Items(t), Items(Sub(t, p)));
    }
    RingTree(Graft(t, p, u), p, whole);
    hide Tree;
    hide Ring;
    hide Items;
    hide Graft;
  }

  lemma Whole<T>(a: set<T>, b: set<T>)
    requires b <= a
    ensures (a - b) + b == a
  {
  }

  /** The comparison itself; what surrounds the two items stays as it is. */
  method CompareInside(x: Item, y: Item, cs: bool, ghost t: Shape, ghost j: Json, ghost p: seq<nat>, ghost w: View,
    ghost i: nat, ghost was: bool) returns (same: bool, ghost v': View, ghost w': View)
    requires Valid(t, p) && Ring(t, p, false) && (was ==> Ring(t, p)) && Holds(t, j) && Pointer.ValidPath(j, p)
    requires Seen(View(Sub(t, p), Pointer.At(j, p), was, true)) && x == Sub(t, p).item
    requires i < |w.tree.kids| && i < |Pointer.Children(w.doc)|
    requires Apart(w.tree, i) && Around(w, i) && Holds(w.tree, w.doc)
    requires Seen(View(w.tree.kids[i], Pointer.Children(w.doc)[i], w.was, true)) && y == w.tree.kids[i].item
    requires Items(t) !! Items(w.tree) && CStrings(Pointer.At(j, p)) && CStrings(Pointer.Children(w.doc)[i])
    modifies Items(Sub(t, p))`child, Nodes(Sub(t, p).kids)`next, Nodes(Sub(t, p).kids)`prev
    modifies Items(w.tree.kids[i])`child, Nodes(w.tree.kids[i].kids)`next, Nodes(w.tree.kids[i].kids)`prev
    ensures Ring(t, p, false) && (was ==> Ring(t, p)) && Holds(t, j) && Around(w, i) && Holds(w.tree, w.doc)
    ensures Answered(same, View(Sub(t, p), Pointer.At(j, p), was, true),
      View(w.tree.kids[i], Pointer.Children(w.doc)[i], w.was, true), v', w', cs)
  {
    hide *;
    Reach(w.tree, i);
    RimApart(t, p);
    AllAllocated(t);
    SubTop(t, p, j, was);
    same, v', w' := CompareTrees(x, y, cs, View(Sub(t, p), Pointer.At(j, p), was, true),
      View(w.tree.kids[i], Pointer.Children(w.doc)[i], w.was, true));
  }

  lemma SubTop(t: Shape, p: seq<nat>, j: Json, was: bool)
    requires Valid(t, p) && Pointer.ValidPath(j, p) && Seen(View(Sub(t, p), Pointer.At(j, p), was, true))
    ensures var s := Sub(t, p); s.item !in Nodes(s.kids) && Nodes(s.kids) <= Items(s) && s.item in Items(s)
  {
  }

  /** What the comparison starts from. */
  lemma TestReady(t: Shape, j: Json, p: seq<nat>, tp: Shape, pj: Json, i: nat, was: bool)
    requires Stores(t.item, t, j, false) && Pointer.ValidPath(j, p) && Valid(t, p) && (was ==> Tree(t)) && CStrings(j)
    requires Stores(tp.item, tp, pj, false) && pj.Obj? && i < |pj.members| && CStrings(pj)
    ensures Ring(t, p, false) && (was ==> Ring(t, p)) && Seen(View(Sub(t, p), Pointer.At(j, p), was, true))
    ensures CStrings(Pointer.At(j, p))
    ensures var w := View(tp, pj, false, true);
      && i < |tp.kids| == |Pointer.Children(pj)| && CStrings(Pointer.Children(pj)[i])
      && Apart(tp, i) && Around(w, i) && Holds(t, j) && Holds(tp, pj)
      && Seen(View(tp.kids[i], Pointer.Children(pj)[i], false, true))
  {
    RingTree(t, p, false);
    RingTree(t, p, true);
    SubHolds(t, j, p);
    PatchStrings.StringsAt(j, p);
    KidCount(tp, pj);
    Open(View(tp, pj, false, true), i);
    PatchStrings.StringsChild(pj, i);
    hide Tree;
    hide Holds;
    hide Ring;
    hide Around;
    hide CStrings;
  }

  /** The document after the comparison. */
  lemma DocumentTested(t: Shape, j: Json, p: seq<nat>, was: bool, v: View, u: View, k: Json, whole: bool)
    requires Valid(t, p) && Ring(t, p, false) && (was ==> Ring(t, p)) && Holds(t, j) && Pointer.ValidPath(j, p)
    requires v == View(Sub(t, p), Pointer.At(j, p), was, true, u.orphan) && Turned(v, u, k, whole)
    ensures var t' := Graft(t, p, u.tree);
      && Stores(t.item, t', Patch.Put(j, p, k), false) && Items(t') == Items(t) && (was ==> (Tree(t') <==> whole))
      && Valid(t', p) && Sub(t', p).item == v.tree.item
      && (u.orphan ==> Orphaned(Sub(t', p).item, Roots(Sub(t', p).kids)))
  {
    Grafted(t, p, u.tree, false);
    if was {
      Grafted(t, p, u.tree, true);
    }
    GraftHolds(t, j, p, u.tree, k);
    SubGraft(t, p, u.tree);
    hide Tree;
    hide Holds;
    hide Ring;
    hide Items;
    hide Graft;
  }

  /** The patch after the comparison. */
  lemma PatchTested(tp: Shape, pj: Json, i: nat, v: View, u: View, k: Json, whole: bool)
    requires i < |tp.kids| && i < |Pointer.Children(pj)|
    requires Apart(tp, i) && Around(View(tp, pj, false, true), i) && Holds(tp, pj)
    requires v == View(tp.kids[i], Pointer.Children(pj)[i], false, true, u.orphan) && Turned(v, u, k, whole)
    ensures var tp' := Shape(tp.item, tp.kids[i := u.tree]);
      Stores(tp.item, tp', Patch.SetChild(pj, i, k), false) && Items(tp') == Items(tp)
  {
    Close(View(tp, pj, false, true), i, u, k, whole);
    var tp' := Shape(tp.item, tp.kids[i := u.tree]);
    assert Items(tp') == {tp.item} + Nodes(tp'.kids) && Items(tp) == {tp.item} + Nodes(tp.kids);
    hide Tree;
    hide Holds;
    hide Nodes;
    hide Patch.SetChild;
  }

  /** What the specification says, by what has been found. */
  lemma TestSpec(j: Json, path: string, pj: Json, cs: bool, p: seq<nat>, i: nat, found: bool, given: bool)
    requires pj.Obj? && (found <==> Pointer.GetItem(j, path, cs).Some?) && i == FindKey(pj.members, "value", cs)
    requires (found ==> Pointer.GetItem(j, path, cs) == Some(p)) && (given <==> i != |pj.members|)
    ensures var value := Patch.Lookup(pj, "value", cs);
      var r := Patch.ApplyOp(j, Patch.Op(Patch.Test, path, value, None), cs);
      if found && given then
        && Pointer.ValidPath(j, p) && i < |Pointer.Children(pj)|
        && var c := Arrange.CompareTwo(Pointer.At(j, p), Pointer.Children(pj)[i], cs);
        && value == Some(Pointer.Children(pj)[i])
        && r == Patch.Outcome(if c.same then 0 else 1, Patch.Put(j, p, c.left))
        && (WholeTest(j, path, value, cs) <==> c.leftWhole)
        && TestedPatch(j, path, pj, cs) == Patch.SetChild(pj, i, c.right)
      else
        && (Pointer.GetItem(j, path, cs).None? || value.None?)
        && r == Patch.Outcome(1, j) && WholeTest(j, path, value, cs) && TestedPatch(j, path, pj, cs) == pj
  {
    hide Arrange.CompareTwo;
    hide FindKey;
    hide Patch.Put;
  }

  lemma Tops(root: Item, t: Shape, j: Json, patch: Item, tp: Shape, pj: Json)
    requires Stores(root, t, j, false) && Stores(patch, tp, pj, false)
    ensures root == t.item && patch == tp.item && root !in Nodes(t.kids)
  {
  }

  lemma Inside(t: Shape, p: seq<nat>)
    requires Valid(t, p)
    ensures Items(Sub(t, p)) <= Items(t) && Nodes(Sub(t, p).kids) <= Nodes(t.kids)
    ensures Sub(t, p).item in Items(Sub(t, p))
  {
    SubInside(t, p);
  }

  lemma KidInside(t: Shape, i: nat)
    requires i < |t.kids|
    ensures Items(t.kids[i]) <= Items(t) && Nodes(t.kids[i].kids) <= Nodes(t.kids)
  {
    NodesOf(t.kids, i);
  }

  /** `test`, after the operation has been decoded: status and document are those of the specification.
      A whole document stays whole exactly as `WholeTest` says; it stays linked in any case. */
  method TestItem(root: Item, patch: Item, path: string, cs: bool, ghost t: Shape, ghost j: Json, ghost tp: Shape,
    ghost pj: Json) returns (status: int, ghost t': Shape, ghost tp': Shape)
    requires Stores(root, t, j, false) && Stores(patch, tp, pj, false) && Items(t) !! Items(tp)
    requires pj.Obj? && CStrings(j) && CStrings(pj)
    modifies Items(t)`child, Nodes(t.kids)`next, Nodes(t.kids)`prev
    modifies Items(tp)`child, Nodes(tp.kids)`next, Nodes(tp.kids)`prev
    ensures var value := Patch.Lookup(pj, "value", cs);
      var r := Patch.ApplyOp(j, Patch.Op(Patch.Test, path, value, None), cs);
      && status == r.status && Stores(root, t', r.doc, false) && Items(t') == Items(t)
      && (old(Tree(t)) ==> (Tree(t') <==> WholeTest(j, path, value, cs)))
    ensures Stores(patch, tp', TestedPatch(j, path, pj, cs), false) && Items(tp') == Items(tp)
    ensures var p, value := Pointer.GetItem(j, path, cs), Patch.Lookup(pj, "value", cs);
      p.Some? && value.Some? && Orphans(Pointer.At(j, p.value), value.value, cs) ==>
        Valid(t', p.value) && Orphaned(Sub(t', p.value).item, Roots(Sub(t', p.value).kids))
  {
    hide *;
    AllAllocated(t);
    AllAllocated(tp);
    KidsAllocated(t.kids);
    KidsAllocated(tp.kids);
    ghost var was := Tree(t);
    var item, value;
    ghost var p, i;
    item, p := FindItem(root, path, cs, t, j, false);
    value, i := FindNamed(patch, "value", cs, tp, pj, false);
    TestSpec(j, path, pj, cs, p, i, item != null, value != null);
    if item == null || value == null {
      return 1, t, tp;
    }
    Tops(root, t, j, patch, tp, pj);
    TestReady(t, j, p, tp, pj, i, was);
    Inside(t, p);
    KidInside(tp, i);
    ghost var c := Arrange.CompareTwo(Pointer.At(j, p), Pointer.Children(pj)[i], cs);
    ghost var v := View(Sub(t, p), Pointer.At(j, p), was, true);
    ghost var w := View(tp.kids[i], Pointer.Children(pj)[i], false, true);
    ghost var v', w';
    var same;
    same, v', w' := CompareInside(item, value, cs, t, j, p, View(tp, pj, false, true), i, was);
    AnswerOpen(same, v, w, v', w', cs);
    DocumentTested(t, j, p, was, v.(orphan := v'.orphan), v', c.left, c.leftWhole);
    PatchTested(tp, pj, i, w.(orphan := w'.orphan), w', c.right, c.rightWhole);
    t', tp' := Graft(t, p, v'.tree), Shape(tp.item, tp.kids[i := w'.tree]);
    status := if same then 0 else 1;
  }

  // ---- what a test can cost ----

  lemma OrphanNotWhole(j: Json, path: string, value: Json, cs: bool)
    requires var p := Pointer.GetItem(j, path, cs); p.Some? && Orphans(Pointer.At(j, p.value), value, cs)
    ensures !WholeTest(j, path, Some(value), cs)
  {
    hide Arrange.WalkMembers;
    hide Sorting.SortList;
    hide Sorting.FirstLowest;
    hide Sorting.LastHighest;
  }

  lemma TestDocument(j: Json, path: string, value: Json, cs: bool, p: seq<nat>)
    requires Pointer.GetItem(j, path, cs) == Some(p)
    ensures var c := Arrange.CompareTwo(Pointer.At(j, p), value, cs);
      Patch.ApplyOp(j, Patch.Op(Patch.Test, path, Some(value), None), cs)
      == Patch.Outcome(if c.same then 0 else 1, Patch.Put(j, p, c.left))
  {
    hide Arrange.CompareTwo;
    hide Pointer.GetItem;
    hide Patch.Put;
  }

  /** The pointer leads to the same place after the test. */
  lemma StillThere(j: Json, path: string, value: Json, cs: bool)
    requires Pointer.GetItem(j, path, cs).Some?
    ensures var doc := Patch.ApplyOp(j, Patch.Op(Patch.Test, path, Some(value), None), cs).doc;
      Pointer.GetItem(doc, path, cs) == Pointer.GetItem(j, path, cs)
  {
    hide *;
    var p := Pointer.GetItem(j, path, cs).value;
    TestDocument(j, path, value, cs, p);
    PatchInverse.GetItemPut(j, path, cs, Arrange.CompareTwo(Pointer.At(j, p), value, cs).left);
  }

  /** `add_item_to_object` on an object whose head points back to nothing: nothing changes. */
  method AddLost(parent: Item, item: Item, name: string, ghost root: Item, ghost t: Shape, ghost j: Json,
    ghost s: Shape)
    requires Stores(root, t, j, false) && s.item == parent && Items(s) <= Items(t) && Nodes(s.kids) <= Nodes(t.kids)
    requires Orphaned(parent, Roots(s.kids)) && item !in Items(t) && item.next == null
    modifies parent`child, item`next, item`prev, item`name, Nodes(s.kids)`next, Nodes(s.kids)`prev
    ensures Stores(root, t, j, false) && item.name == Some(name) && Tree(t) == old(Tree(t))
  {
    AllAllocated(t);
    KidsAllocated(t.kids);
    ghost var xs := Roots(s.kids);
    assert forall i :: 0 <= i < |xs| ==> xs[i] in Nodes(s.kids);
    assert parent in Items(s) && Nodes(t.kids) <= Items(t) && root == t.item;
    hide *;
    item.name := Some(name);
    AddItem(parent, item, xs, 0);
  }

  /** A `test` of an object whose first key is not below all others, and then an addition to that object:
      the new member is lost. The tree holds what it held before the addition. */
  method TestThenAdd(root: Item, patch: Item, path: string, item: Item, name: string, cs: bool, ghost t: Shape,
    ghost j: Json, ghost tp: Shape, ghost pj: Json) returns (status: int, ghost t': Shape)
    requires Stores(root, t, j) && Stores(patch, tp, pj, false) && Items(t) !! Items(tp)
    requires pj.Obj? && CStrings(j) && CStrings(pj) && item !in Items(t) && item !in Items(tp) && item.next == null
    requires var p, value := Pointer.GetItem(j, path, cs), Patch.Lookup(pj, "value", cs);
      p.Some? && value.Some? && Orphans(Pointer.At(j, p.value), value.value, cs)
    modifies Items(t)`child, Nodes(t.kids)`next, Nodes(t.kids)`prev
    modifies Items(tp)`child, Nodes(tp.kids)`next, Nodes(tp.kids)`prev, item`next, item`prev, item`name
    ensures var r := Patch.ApplyOp(j, Patch.Op(Patch.Test, path, Patch.Lookup(pj, "value", cs), None), cs);
      status == r.status && Stores(root, t', r.doc, false) && !Tree(t')
    ensures item !in Items(t')
  {
    hide *;
    ghost var p, value := Pointer.GetItem(j, path, cs), Patch.Lookup(pj, "value", cs);
    OrphanNotWhole(j, path, value.value, cs);
    StillLinked(root, t, j);
    Tops(root, t, j, patch, tp, pj);
    AllAllocated(t);
    ItemsApart(t, tp);
    var parent;
    ghost var tp', q;
    ghost var doc := Patch.ApplyOp(j, Patch.Op(Patch.Test, path, value, None), cs).doc;
    status, t', tp' := TestItem(root, patch, path, cs, t, j, tp, pj);
    StillThere(j, path, value.value, cs);
    AllAllocated(t');
    KidsAllocated(t'.kids);
    Inside(t', p.value);
    KidsAllocated(Sub(t', p.value).kids);
    SameKids(root, t, t', doc);
    assert Orphaned(Sub(t', p.value).item, Roots(Sub(t', p.value).kids));
    parent, q := FindItem(root, path, cs, t', doc, false);
    AddLost(parent, item, name, root, t', doc, Sub(t', q));
  }

  lemma SameKids(root: Item, t: Shape, t': Shape, doc: Json)
    requires t.item == root && t.item !in Nodes(t.kids) && Stores(root, t', doc, false) && Items(t') == Items(t)
    ensures Nodes(t'.kids) == Nodes(t.kids)
  {
    SameNodes(t, t');
  }

  lemma StillLinked(root: Item, t: Shape, j: Json)
    requires Stores(root, t, j)
    ensures Stores(root, t, j, false) && Tree(t)
  {
    WholeLinked(t);
  }

  // ---- an example ----

  /** {"b":1,"a":2}, and the same sorted. */
  const UNSORTED: Json := Obj([Member("b", Number(1.0)), Member("a", Number(2.0))])
  const SORTED: Json := Obj([Member("a", Number(2.0)), Member("b", Number(1.0))])

  /** A test of the whole document against its own value. */
  const TESTING: Patch.Op := Patch.Op(Patch.Test, "", Some(UNSORTED), None)
  /** The addition of 3 as the member "c". */
  const ADDING: Patch.Op := Patch.Op(Patch.Add, "/c", Some(Number(3.0)), None)

  lemma PairSorted(cs: bool)
    ensures Sorting.SortList(UNSORTED.members, cs) == SORTED.members
    ensures !Sorting.FirstLowest(UNSORTED.members, cs)
  {
    ListSort.LetterOrder(cs);
    var ms := UNSORTED.members;
    Sorting.SortPair(ms[0], ms[1], cs);
    assert ms == [ms[0], ms[1]] && SORTED.members == [ms[1], ms[0]];
    hide KeyLess;
    hide Sorting.SortList;
  }

  lemma {:induction false} NumbersWalk(d: Json, x: seq<Member<Json>>, cs: bool)
    requires d.Obj? && (forall m :: m in x ==> m in d.members) && forall m :: m in x ==> m.value.Number?
    ensures Arrange.WalkMembers(d, x, x, cs) == Arrange.Walked(true, x, x, true, true)
  {
    hide Fold;
    if x == [] {
    } else {
      assert x[0] in x && x[0].(value := x[0].value) == x[0];
      NumbersWalk(d, x[1..], cs);
    }
  }

  lemma PairCompared(cs: bool)
    ensures var c := Arrange.CompareTwo(UNSORTED, UNSORTED, cs); c.same && c.left == SORTED && !c.leftWhole
  {
    PairSorted(cs);
    NumbersWalk(UNSORTED, SORTED.members, cs);
    hide Sorting.SortList;
    hide Sorting.FirstLowest;
    hide Sorting.LastHighest;
    hide Arrange.WalkMembers;
  }

  /** By the specification of the patches, both succeed and the new member is there. */
  lemma SpecAdds(cs: bool)
    ensures Patch.ApplyPatches(UNSORTED, [PatchSteps.Composed(TESTING), PatchSteps.Composed(ADDING)], cs)
      == Patch.Outcome(0, Obj(SORTED.members + [Member("c", Number(3.0))]))
  {
    PatchSteps.ApplyComposed(UNSORTED, TESTING, cs);
    PatchSteps.ApplyComposed(SORTED, ADDING, cs);
    hide *;
    TestedPair(cs);
    AddedMember(cs);
    TwoPatches(UNSORTED, PatchSteps.Composed(TESTING), PatchSteps.Composed(ADDING), cs);
  }

  lemma TwoPatches(j: Json, p: Json, q: Json, cs: bool)
    requires Patch.ApplyPatch(j, p, cs).status == 0
    ensures Patch.ApplyPatches(j, [p, q], cs).status == Patch.ApplyPatch(Patch.ApplyPatch(j, p, cs).doc, q, cs).status
    ensures Patch.ApplyPatches(j, [p, q], cs).doc == Patch.ApplyPatch(Patch.ApplyPatch(j, p, cs).doc, q, cs).doc
  {
    hide Patch.ApplyPatch;
    var k := Patch.ApplyPatch(j, p, cs).doc;
    var r := Patch.ApplyPatch(k, q, cs);
    assert [p, q][1..] == [q] && [q][1..] == [];
    assert Patch.ApplyPatches(j, [p, q], cs) == Patch.ApplyPatches(k, [q], cs);
    assert Patch.ApplyPatches(k, [q], cs) == if r.status != 0 then r else Patch.ApplyPatches(r.doc, [], cs);
  }

  lemma TestedPair(cs: bool)
    ensures Patch.ApplyOp(UNSORTED, TESTING, cs) == Patch.Outcome(0, SORTED)
  {
    PairCompared(cs);
    hide Arrange.CompareTwo;
  }

  lemma AddedMember(cs: bool)
    ensures Patch.ApplyOp(SORTED, ADDING, cs) == Patch.Outcome(0, Obj(SORTED.members + [Member("c", Number(3.0))]))
  {
    var ms := SORTED.members;
    assert "/c"[..0] == "" && "/c"[1..] == "c" && "c"[..1] == "c" && "/c"[..1] == "/" && "/"[..0] == "";
    assert Patch.LastSlash("/c") == 0;
    assert Patch.DecodeInPlace("c") == "c";
    assert ms[1..] == [ms[1]];
    assert Lower("a") == "a" && Lower("b") == "b" && Lower("c") == "c" by {
      ListSort.LetterOrder(cs);
    }
    assert FindKey(ms, "c", cs) == 2;
  }

  lemma ExampleReady(cs: bool)
    ensures var pj := PatchSteps.Composed(TESTING);
      && pj.Obj? && CStrings(pj) && CStrings(UNSORTED) && Patch.Lookup(pj, "value", cs) == Some(UNSORTED)
      && Pointer.GetItem(UNSORTED, "", cs) == Some([]) && Orphans(Pointer.At(UNSORTED, []), UNSORTED, cs)
    ensures TESTING == Patch.Op(Patch.Test, "", Some(UNSORTED), None)
  {
    PatchSteps.ComposedLookups(TESTING, cs);
    var pj := PatchSteps.Composed(TESTING);
    assert pj == Obj([Member("op", Str("test")), Member("path", Str("")), Member("value", UNSORTED)]);
    assert CStrings(UNSORTED) && CStrings(pj);
    assert Pointer.GetItem(UNSORTED, "", cs) == Some([]) && Pointer.At(UNSORTED, []) == UNSORTED;
    PairSorted(cs);
    assert Orphans(UNSORTED, UNSORTED, cs) && Patch.Lookup(pj, "value", cs) == Some(UNSORTED);
  }

  /** By the linked items, both succeed as well, and the new member is lost. */
  method TestLosesMember(root: Item, patch: Item, item: Item, cs: bool, ghost t: Shape, ghost tp: Shape)
    returns (status: int, ghost t': Shape)
    requires Stores(root, t, UNSORTED) && Stores(patch, tp, PatchSteps.Composed(TESTING), false)
    requires Items(t) !! Items(tp) && item !in Items(t) && item !in Items(tp) && item.next == null
    modifies Items(t)`child, Nodes(t.kids)`next, Nodes(t.kids)`prev
    modifies Items(tp)`child, Nodes(tp.kids)`next, Nodes(tp.kids)`prev, item`next, item`prev, item`name
    ensures status == 0 && Stores(root, t', SORTED, false) && item !in Items(t')
  {
    hide *;
    ExampleReady(cs);
    TestedPair(cs);
    status, t' := TestThenAdd(root, patch, "", item, "c", cs, t, UNSORTED, tp, PatchSteps.Composed(TESTING));
  }
}
