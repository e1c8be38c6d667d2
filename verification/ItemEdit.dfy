/** Following a pointer, taking an item out and putting one in, on linked items: the tree stays whole,
    with complete lists, and holds the document the specification names. */
module ItemEdit {
  import opened Text
  import opened Json
  import opened SiblingList
  import opened ItemTree
  import opened ItemPaths
  import Pointer
  import Patch
  import PatchInverse

  /** The item is the root of a tree, a whole one by default, that holds the document. */
  ghost predicate Stores(root: Item, t: Shape, j: Json, whole: bool := true)
    reads root`child, Nodes(t.kids)`next, Nodes(t.kids)`prev, Nodes(t.kids)`child
    reads Items(t)`kind, Items(t)`text, Items(t)`number, Items(t)`name
  {
    t.item == root && Tree(t, whole) && Holds(t, j)
  }

  // ---- looking for a child ----

  /** A child of an object, and its name. */
  lemma MemberKid(t: Shape, j: Json, i: nat)
    requires Holds(t, j) && j.Obj?
    ensures |t.kids| == |j.members|
    ensures i < |t.kids| ==> Roots(t.kids)[i] == t.kids[i].item && t.kids[i].item.name == Some(j.members[i].key)
  {
    if i < |t.kids| {
      HoldsChild(t, j, i);
      ForestParts(t.kids, i);
    }
  }

  lemma FindOn<T>(ms: seq<Member<T>>, name: string, cs: bool, i: nat)
    requires i <= |ms|
    ensures FindKey(ms[i..], name, cs) ==
      if i == |ms| then 0 else if SameKey(ms[i].key, name, cs) then 0 else 1 + FindKey(ms[i + 1..], name, cs)
  {
    hide SameKey;
    assert i < |ms| ==> ms[i..][1..] == ms[i + 1..];
  }

  /** An item whose children have no names, as those of an array that has been parsed. */
  ghost predicate Nameless(t: Shape)
    reads Nodes(t.kids)`name
  {
    forall x :: x in Roots(t.kids) ==> x.name == None
  }

  /** `get_object_item`: the walk to the first child of that name. A child without a name is passed over,
      or ends the walk if case matters. */
  method FindNamed(parent: Item, name: string, cs: bool, ghost t: Shape, ghost j: Json,
    ghost whole: bool := true) returns (kid: Item?, ghost i: nat)
    requires Stores(parent, t, j, whole) && (j.Obj? || Nameless(t))
    ensures j.Obj? ==> i == FindKey(j.members, name, cs) && |t.kids| == |j.members|
    ensures j.Obj? ==> (kid == null <==> i == |j.members|)
    ensures !j.Obj? ==> kid == null
    ensures kid != null ==> i < |t.kids| && kid == t.kids[i].item
  {
    ghost var ms, xs := if j.Obj? then j.members else [], Roots(t.kids);
    AllAllocated(t);
    if j.Obj? {
      MemberKid(t, j, 0);
    }
    assert ms[0..] == ms && Strung(parent, xs);
    hide FindKey;
    hide SameKey;
    hide Holds;
    hide Tree;
    hide Roots;
    kid, i := parent.child, 0;
    while kid != null && (if kid.name.None? then !cs else !SameKey(kid.name.value, name, cs))
      invariant i <= |xs| && kid == (if i < |xs| then xs[i] else null)
      invariant kid != null ==> if j.Obj? then kid.name.Some? else kid.name.None?
      invariant j.Obj? ==> FindKey(ms, name, cs) == i + FindKey(ms[i..], name, cs)
      decreases |xs| - i
    {
      if j.Obj? {
        FindOn(ms, name, cs, i);
        MemberKid(t, j, i);
        MemberKid(t, j, i + 1);
      }
      kid := kid.next;
      i := i + 1;
    }
    if j.Obj? {
      FindOn(ms, name, cs, i);
      MemberKid(t, j, i);
    }
    if kid != null && kid.name.None? {
      kid := null;
    }
  }

  lemma TokenOn<T>(ms: seq<Member<T>>, token: string, cs: bool, i: nat)
    requires i <= |ms|
    ensures Pointer.FindToken(ms[i..], token, cs) ==
      if i == |ms| then 0
      else if Pointer.ComparePointers(ms[i].key, token, cs) then 0
      else 1 + Pointer.FindToken(ms[i + 1..], token, cs)
  {
    assert i < |ms| ==> ms[i..][1..] == ms[i + 1..];
  }

  /** The walk of `get_item_from_pointer` to the first child whose name matches the token. */
  method FindMatch(parent: Item, token: string, cs: bool, ghost t: Shape, ghost j: Json,
    ghost whole: bool := true) returns (kid: Item?, ghost i: nat)
    requires Stores(parent, t, j, whole) && j.Obj?
    ensures i == Pointer.FindToken(j.members, token, cs) && (kid == null <==> i == |j.members|)
    ensures |t.kids| == |j.members| && (kid != null ==> kid == t.kids[i].item)
  {
    ghost var ms, xs := j.members, Roots(t.kids);
    AllAllocated(t);
    MemberKid(t, j, 0);
    assert ms[0..] == ms && Strung(parent, xs);
    hide Pointer.FindToken;
    hide Pointer.ComparePointers;
    hide Holds;
    hide Tree;
    hide Roots;
    kid, i := parent.child, 0;
    while kid != null
      invariant i <= |ms| && kid == (if i < |ms| then xs[i] else null)
      invariant kid != null ==> kid.name.Some?
      invariant Pointer.FindToken(ms, token, cs) == i + Pointer.FindToken(ms[i..], token, cs)
      decreases |ms| - i
    {
      TokenOn(ms, token, cs, i);
      MemberKid(t, j, i);
      MemberKid(t, j, i + 1);
      var hit := Pointer.ComparePointersLoop(kid.name.value, token, cs);
      if hit {
        return;
      }
      kid := kid.next;
      i := i + 1;
    }
    TokenOn(ms, token, cs, i);
  }

  /** A child of an array. */
  lemma ElemKid(t: Shape, j: Json, i: nat)
    requires Holds(t, j) && j.Arr?
    ensures |t.kids| == |j.elems| && (i < |t.kids| ==> Roots(t.kids)[i] == t.kids[i].item)
  {
    if i < |t.kids| {
      ForestParts(t.kids, i);
    }
  }

  /** The type bits tell arrays and objects from the rest. */
  lemma KindOf(t: Shape, j: Json)
    requires Holds(t, j)
    ensures (t.item.kind == ARRAY <==> j.Arr?) && (t.item.kind == OBJECT <==> j.Obj?)
    ensures (t.item.kind == NULL <==> j.Null?) && (t.item.kind == STRING <==> j.Str?)
    ensures j.Str? ==> t.item.text == Some(j.s)
  {
  }

  /** A child of a whole tree is one. */
  lemma KidStores(t: Shape, j: Json, i: nat, whole: bool := true)
    requires Tree(t, whole) && Holds(t, j) && i < |Pointer.Children(j)|
    ensures i < |t.kids| && Stores(t.kids[i].item, t.kids[i], Pointer.Children(j)[i], whole)
  {
    HoldsChild(t, j, i);
    ForestParts(t.kids, i, whole);
  }

  lemma NextKid(t: Shape, i: nat)
    requires Tree(t) && i < |t.kids|
    ensures var xs := Roots(t.kids); xs[i].next == if i + 1 < |xs| then xs[i + 1] else null
  {
  }

  /** One token of a pointer. */
  method StepItem(current: Item, token: string, cs: bool, ghost t: Shape, ghost j: Json, ghost whole: bool := true)
    returns (kid: Item?, ghost i: nat)
    requires Stores(current, t, j, whole)
    ensures kid == null <==> Pointer.Step(j, token, cs) == None
    ensures kid != null ==> Pointer.Step(j, token, cs) == Some(i) && i < |t.kids| && kid == t.kids[i].item
    ensures kid != null ==> Stores(kid, t.kids[i], Pointer.Children(j)[i], whole)
  {
    AllAllocated(t);
    KidsAllocated(t.kids);
    assert Strung(current, Roots(t.kids));
    KindOf(t, j);
    i := 0;
    if current.kind == ARRAY {
      var index := Pointer.DecodeIndexLoop(token);
      if index.None? {
        return null, 0;
      }
      i := index.value;
      ElemKid(t, j, i);
      hide Roots;
      kid := SiblingList.GetItem(current, index.value, Roots(t.kids));
    } else if current.kind == OBJECT {
      kid, i := FindMatch(current, token, cs, t, j, whole);
    } else {
      kid := null;
    }
    if kid != null {
      KidStores(t, j, i, whole);
    }
  }

  lemma {:induction false} SubSnoc(t: Shape, p: seq<nat>, i: nat)
    requires Valid(t, p) && i < |Sub(t, p).kids|
    ensures Valid(t, p + [i]) && Sub(t, p + [i]) == Sub(t, p).kids[i]
    decreases |p|
  {
    if p == [] {
      assert [] + [i] == [i] && [i][1..] == [];
    } else {
      assert (p + [i])[1..] == p[1..] + [i];
      SubSnoc(t.kids[p[0]], p[1..], i);
    }
  }

  /** The same place in the tree of items and in the document. */
  ghost predicate Here(t: Shape, j: Json, p: seq<nat>, s: Shape, k: Json) {
    Valid(t, p) && Sub(t, p) == s && Pointer.ValidPath(j, p) && Pointer.At(j, p) == k
  }

  /** `get_item_from_pointer`: the item at the place the specification names. */
  method FindItem(root: Item, pointer: string, cs: bool, ghost t: Shape, ghost j: Json, ghost whole: bool := true)
    returns (current: Item?, ghost p: seq<nat>)
    requires Stores(root, t, j, whole)
    ensures current == null <==> Pointer.GetItem(j, pointer, cs).None?
    ensures current != null ==> Pointer.GetItem(j, pointer, cs) == Some(p) && Valid(t, p)
    ensures current != null ==> current == Sub(t, p).item && Stores(current, Sub(t, p), Pointer.At(j, p), whole)
  {
    ghost var found := Pointer.GetItem(j, pointer, cs);
    ghost var s, k := t, j;
    var rest := pointer;
    current, p := root, [];
    assert Here(t, j, p, s, k) && current == s.item;
    assert found.Some? ==> [] + found.value == found.value;
    hide Stores;
    hide Here;
    hide Items;
    hide Nodes;
    hide Pointer.GetItem;
    while rest != "" && rest[0] == '/'
      invariant current != null && current == s.item && Stores(current, s, k, whole) && Here(t, j, p, s, k)
      invariant found == Pointer.Join(p, Pointer.GetItem(k, rest, cs))
      decreases |rest|
    {
      var kid, next;
      ghost var i;
      kid, next, i := NextItem(current, rest, cs, t, j, p, s, k, whole);
      if kid == null {
        return null, p;
      }
      current, p, s, k, rest := kid, p + [i], s.kids[i], Pointer.Children(k)[i], next;
    }
    assert p + [] == p;
    GetEnd(k, rest, cs);
    HereIs(t, j, p, s, k);
  }

  /** One round of the walk. */
  method NextItem(current: Item, rest: string, cs: bool, ghost t: Shape, ghost j: Json, ghost p: seq<nat>,
    ghost s: Shape, ghost k: Json, ghost whole: bool) returns (kid: Item?, next: string, ghost i: nat)
    requires rest != "" && rest[0] == '/' && Stores(current, s, k, whole) && Here(t, j, p, s, k)
    ensures next == Pointer.SkipToken(rest[1..])
    ensures kid == null ==> Pointer.GetItem(k, rest, cs).None?
    ensures kid != null ==>
      && i < |s.kids| && i < |Pointer.Children(k)| && kid == s.kids[i].item
      && Stores(kid, s.kids[i], Pointer.Children(k)[i], whole) && Here(t, j, p + [i], s.kids[i], Pointer.Children(k)[i])
      && Pointer.Join(p, Pointer.GetItem(k, rest, cs))
         == Pointer.Join(p + [i], Pointer.GetItem(Pointer.Children(k)[i], next, cs))
  {
    AllAllocated(s);
    KidsAllocated(s.kids);
    hide Stores;
    hide Here;
    hide Items;
    hide Nodes;
    next := Pointer.SkipTokenLoop(rest[1..]);
    kid, i := StepItem(current, rest[1..], cs, s, k, whole);
    GetOn(k, rest, cs);
    if kid != null {
      StepOn(t, j, p, s, k, i);
      Pointer.JoinCons(p, i, Pointer.GetItem(Pointer.Children(k)[i], next, cs));
    }
    hide Pointer.Step;
    hide Pointer.GetItem;
  }

  lemma GetOn(k: Json, rest: string, cs: bool)
    requires rest != "" && rest[0] == '/'
    ensures var i, next := Pointer.Step(k, rest[1..], cs), Pointer.SkipToken(rest[1..]);
      Pointer.GetItem(k, rest, cs) ==
      if i.None? then None else Pointer.Cons(i.value, Pointer.GetItem(Pointer.Children(k)[i.value], next, cs))
  {
  }

  lemma GetEnd(k: Json, rest: string, cs: bool)
    requires rest == "" || rest[0] != '/'
    ensures Pointer.GetItem(k, rest, cs) == Some([])
  {
  }

  lemma HereIs(t: Shape, j: Json, p: seq<nat>, s: Shape, k: Json)
    requires Here(t, j, p, s, k)
    ensures Valid(t, p) && Sub(t, p) == s && Pointer.ValidPath(j, p) && Pointer.At(j, p) == k
  {
  }

  lemma StepOn(t: Shape, j: Json, p: seq<nat>, s: Shape, k: Json, i: nat)
    requires Here(t, j, p, s, k) && i < |s.kids| && i < |Pointer.Children(k)|
    ensures Here(t, j, p + [i], s.kids[i], Pointer.Children(k)[i])
  {
    SubSnoc(t, p, i);
    AtSnoc(j, p, i);
  }

  lemma {:induction false} AtSnoc(j: Json, p: seq<nat>, i: nat)
    requires Pointer.ValidPath(j, p) && i < |Pointer.Children(Pointer.At(j, p))|
    ensures Pointer.ValidPath(j, p + [i]) && Pointer.At(j, p + [i]) == Pointer.Children(Pointer.At(j, p))[i]
    decreases |p|
  {
    if p == [] {
      assert [] + [i] == [i] && [i][1..] == [];
    } else {
      assert (p + [i])[1..] == p[1..] + [i];
      AtSnoc(Pointer.Children(j)[p[0]], p[1..], i);
    }
  }

  // ---- taking an item out ----

  /** A child leaves the list of its parent. */
  method DetachKid(parent: Item, kid: Item, ghost s: Shape, ghost i: nat)
    requires Tree(s) && s.item == parent && i < |s.kids| && kid == s.kids[i].item
    modifies parent`child, Nodes(s.kids)`next, Nodes(s.kids)`prev
    ensures Tree(Shape(parent, Without(s.kids, i))) && Tree(s.kids[i]) && kid.next == null && kid.prev == null
    ensures Items(s.kids[i]) !! Items(Shape(parent, Without(s.kids, i)))
    ensures Items(s) == Items(Shape(parent, Without(s.kids, i))) + Items(s.kids[i])
  {
    KidsAllocated(s.kids);
    RootsApart(s.kids);
    ForestParts(s.kids, i);
    ghost var xs := Roots(s.kids);
    var r := DetachItemViaPointer(parent, kid, xs, i);
    ForestParts(s.kids, i);
    hide Without;
    hide Children;
  }

  /** What holds the rest after a child is gone. */
  lemma WithoutHolds(s: Shape, k: Json, i: nat)
    requires Holds(s, k) && i < |Pointer.Children(k)|
    ensures i < |s.kids| && Holds(Shape(s.item, Without(s.kids, i)), Patch.WithoutChild(k, i))
    ensures Holds(s.kids[i], Pointer.Children(k)[i])
  {
    HoldsChild(s, k, i);
    if k.Arr? {
      HoldElemsParts(s.kids, k.elems, i);
    } else {
      HoldMembersParts(s.kids, k.members, i);
    }
    hide HoldElems;
    hide HoldMembers;
    hide Without;
  }

  lemma RimApart(t: Shape, p: seq<nat>)
    requires Valid(t, p)
    ensures Rim(t, p) !! Items(Sub(t, p)) && Rim(t, p) <= Items(t) && Items(Sub(t, p)) <= Items(t)
  {
    SubInside(t, p);
  }

  lemma TopAlone(t: Shape)
    requires Tree(t)
    ensures t.item !in Nodes(t.kids)
  {
  }

  /** A child of the item at place `p` leaves the tree. */
  method CutOut(root: Item, node: Item, kid: Item, ghost t: Shape, ghost j: Json, ghost p: seq<nat>, ghost i: nat)
    returns (ghost t': Shape)
    requires Stores(root, t, j) && Pointer.ValidPath(j, p) && Valid(t, p) && node == Sub(t, p).item
    requires i < |Pointer.Children(Pointer.At(j, p))| && i < |Sub(t, p).kids| && kid == Sub(t, p).kids[i].item
    modifies Items(t)`child, Items(t)`next, Items(t)`prev
    ensures Stores(root, t', Patch.Put(j, p, Patch.WithoutChild(Pointer.At(j, p), i)))
    ensures Stores(kid, Sub(t, p).kids[i], Pointer.Children(Pointer.At(j, p))[i]) && kid.next == null
    ensures Items(Sub(t, p).kids[i]) !! Items(t') && Items(t') + Items(Sub(t, p).kids[i]) <= Items(t)
  {
    ghost var s, k := Sub(t, p), Pointer.At(j, p);
    RingTree(t, p);
    RimApart(t, p);
    SubHolds(t, j, p);
    ghost var u := Shape(node, Without(s.kids, i));
    DetachApart(node, kid, t, j, p, i);
    WithoutHolds(s, k, i);
    hide Tree;
    hide Holds;
    hide Ring;
    hide Without;
    hide Patch.WithoutChild;
    RingGraft(t, p, u);
    GraftHolds(t, j, p, u, Patch.WithoutChild(k, i));
    t' := Graft(t, p, u);
  }

  /** The rest of the tree is not touched. */
  method DetachApart(node: Item, kid: Item, ghost t: Shape, ghost j: Json, ghost p: seq<nat>, ghost i: nat)
    requires Holds(t, j) && Valid(t, p) && Ring(t, p) && node == Sub(t, p).item && Pointer.ValidPath(j, p)
    requires Tree(Sub(t, p)) && Holds(Sub(t, p), Pointer.At(j, p))
    requires i < |Sub(t, p).kids| && kid == Sub(t, p).kids[i].item
    modifies Items(t)`child, Items(t)`next, Items(t)`prev
    ensures Holds(t, j) && Ring(t, p) && Holds(Sub(t, p), Pointer.At(j, p)) && kid.next == null
    ensures var s := Sub(t, p);
      var u := Shape(node, Without(s.kids, i));
      && Tree(u) && Tree(s.kids[i]) && Items(s.kids[i]) !! Items(u) && Items(s) == Items(u) + Items(s.kids[i])
  {
    ghost var s := Sub(t, p);
    AllAllocated(t);
    RimApart(t, p);
    TopAlone(s);
    assert Items(s) == {node} + Nodes(s.kids);
    hide Rim;
    hide Tree;
    hide Holds;
    hide Ring;
    hide Nodes;
    hide Items;
    hide Sub;
    hide Without;
    DetachKid(node, kid, s, i);
  }

  /** The child of `parent` that an unescaped last token names, for removal. */
  method FindTarget(parent: Item, token: string, ghost s: Shape, ghost k: Json) returns (kid: Item?, ghost i: nat)
    requires Stores(parent, s, k)
    ensures match Patch.RemovalTarget(k, token)
      case None => kid == null
      case Some(n) => i == n && n < |s.kids| && kid == s.kids[n].item
  {
    AllAllocated(s);
    KidsAllocated(s.kids);
    assert Children(parent, Roots(s.kids));
    KindOf(s, k);
    kid, i := null, 0;
    if parent.kind == ARRAY {
      var index := Pointer.DecodeIndexLoop(token);
      if index.None? {
        return;
      }
      i := index.value;
      ElemKid(s, k, i);
      hide Roots;
      kid := SiblingList.GetItem(parent, index.value, Roots(s.kids));
    } else if parent.kind == OBJECT {
      kid, i := FindNamed(parent, token, CI, s, k);
    }
  }

  /** The item detached and the document left are those the specification names, both as whole trees. */
  ghost predicate Detached(root: Item, item: Item?, d: Shape, t: Shape, t': Shape, r: Option<(Json, Json)>)
    reads root`child, Nodes(t'.kids)`next, Nodes(t'.kids)`prev, Nodes(t'.kids)`child
    reads Items(t')`kind, Items(t')`text, Items(t')`number, Items(t')`name
    reads Items(d)`child, Items(d)`next, Items(d)`prev
    reads Items(d)`kind, Items(d)`text, Items(d)`number, Items(d)`name
  {
    && r.Some? && item == d.item && item.next == null && Stores(d.item, d, r.value.0)
    && Stores(root, t', r.value.1) && Items(d) !! Items(t') && Items(t') + Items(d) <= Items(t)
  }

  /** The child at place `p` that the token names. */
  method TakeFrom(root: Item, parent: Item, token: string, ghost t: Shape, ghost j: Json, ghost p: seq<nat>)
    returns (item: Item?, ghost d: Shape, ghost t': Shape)
    requires Stores(root, t, j) && Pointer.ValidPath(j, p) && Valid(t, p)
    requires parent == Sub(t, p).item && Stores(parent, Sub(t, p), Pointer.At(j, p))
    modifies Items(t)`child, Items(t)`next, Items(t)`prev
    ensures var k := Pointer.At(j, p);
      var n := Patch.RemovalTarget(k, token);
      if n.None? then item == null && t' == t && Stores(root, t, j)
      else
        var rest := (Pointer.Children(k)[n.value], Patch.Put(j, p, Patch.WithoutChild(k, n.value)));
        item != null && Detached(root, item, d, t, t', Some(rest))
  {
    AllAllocated(t);
    KidsAllocated(t.kids);
    SubInside(t, p);
    hide Stores;
    item, d, t' := null, t, t;
    var kid;
    ghost var i;
    kid, i := FindTarget(parent, token, Sub(t, p), Pointer.At(j, p));
    if kid == null {
      return;
    }
    t' := CutOut(root, parent, kid, t, j, p, i);
    item, d := kid, Sub(t, p).kids[i];
  }

  /** `strrchr(s, '/')`. */
  method FindLastSlash(s: string) returns (i: int)
    ensures i == Patch.LastSlash(s)
  {
    i := |s| - 1;
    assert s[..|s|] == s;
    while i >= 0 && s[i] != '/'
      invariant -1 <= i < |s|
      invariant Patch.LastSlash(s) == Patch.LastSlash(s[..i + 1])
    {
      assert s[..i + 1][..i] == s[..i];
      i := i - 1;
    }
  }

  /** The copy of the last token, unescaped in place. */
  method DecodeToken(token: string) returns (text: string)
    requires NulFree(token)
    ensures text == Patch.DecodeInPlace(token)
  {
    var a := new char[|token| + 1](i => if 0 <= i < |token| then token[i] else NUL);
    assert a[..a.Length - 1] == token;
    text := Patch.DecodePointerInPlace(a);
  }

  /** The parent a path leads to, if any, and the unescaped last token. */
  method FindParent(root: Item, path: string, cs: bool, ghost t: Shape, ghost j: Json)
    returns (parent: Item?, token: string, ghost p: seq<nat>)
    requires Stores(root, t, j) && NulFree(path)
    ensures var s := Patch.LastSlash(path);
      parent == null <==> s < 0 || Pointer.GetItem(j, path[..s], cs).None?
    ensures parent != null ==>
      var s := Patch.LastSlash(path);
      && Pointer.GetItem(j, path[..s], cs) == Some(p) && token == Patch.DecodeInPlace(path[s + 1..])
      && Valid(t, p) && parent == Sub(t, p).item && Stores(parent, Sub(t, p), Pointer.At(j, p))
  {
    AllAllocated(t);
    KidsAllocated(t.kids);
    hide Stores;
    hide Items;
    hide Nodes;
    hide Patch.DecodeInPlace;
    parent, token, p := null, "", [];
    var slash := FindLastSlash(path);
    if slash >= 0 {
      token := DecodeToken(path[slash + 1..]);
      parent, p := FindItem(root, path[..slash], cs, t, j);
    }
  }

  /** `detach_path`. */
  method DetachItems(root: Item, path: string, cs: bool, ghost t: Shape, ghost j: Json)
    returns (item: Item?, ghost d: Shape, ghost t': Shape)
    requires Stores(root, t, j) && NulFree(path)
    modifies Items(t)`child, Items(t)`next, Items(t)`prev
    ensures item != null ==> Detached(root, item, d, t, t', Patch.DetachPath(j, path, cs))
    ensures item == null ==> Patch.DetachPath(j, path, cs).None? && t' == t && Stores(root, t, j)
  {
    AllAllocated(t);
    KidsAllocated(t.kids);
    item, d, t' := null, t, t;
    hide Stores;
    hide Detached;
    hide Items;
    hide Nodes;
    hide Patch.RemovalTarget;
    hide Patch.DecodeInPlace;
    hide Patch.LastSlash;
    var parent, token;
    ghost var p;
    parent, token, p := FindParent(root, path, cs, t, j);
    if parent != null {
      item, d, t' := TakeFrom(root, parent, token, t, j, p);
    }
  }

  // ---- putting an item in ----

  /** A new child at the end. */
  method AppendKid(parent: Item, value: Item, ghost s: Shape, ghost d: Shape)
    requires Tree(s) && s.item == parent && Tree(d) && d.item == value && Items(d) !! Items(s) && value.next == null
    modifies parent`child, value`next, value`prev, Nodes(s.kids)`next, Nodes(s.kids)`prev
    ensures Tree(Shape(parent, s.kids + [d]))
    ensures Items(Shape(parent, s.kids + [d])) == Items(s) + Items(d)
  {
    KidsAllocated(s.kids);
    AllAllocated(d);
    RootsApart(s.kids);
    NodesSnoc(s.kids, d);
    assert value in Items(d) && Nodes(d.kids) <= Items(d) && parent in Items(s);
    assert forall i :: 0 <= i < |s.kids| ==> Roots(s.kids)[i] in Nodes(s.kids);
    AddItem(parent, value, Roots(s.kids), |s.kids|);
    ForestSnoc(s.kids, d);
  }

  lemma ForestInserted(ts: seq<Shape>, i: nat, u: Shape)
    requires i <= |ts|
    ensures var us := Inserted(ts, i, u);
      && Nodes(us) == Nodes(ts) + Items(u) && Roots(us) == Inserted(Roots(ts), i, u.item)
      && (Forest(us) <==> Forest(ts) && Tree(u) && Items(u) !! Nodes(ts))
  {
    var us := Inserted(ts, i, u);
    ForestParts(us, i);
    assert Without(us, i) == ts by {
      DetachUndoesInsert(ts, i, u);
    }
    hide Forest;
    hide Tree;
    hide Nodes;
    hide Items;
    InsertedBack(Roots(us), i);
  }

  lemma InsertedBack<T>(ys: seq<T>, i: nat)
    requires i < |ys|
    ensures Inserted(Without(ys, i), i, ys[i]) == ys
  {
  }

  /** A new child at a position; refused past the end. */
  method InsertKid(parent: Item, which: nat, value: Item, ghost s: Shape, ghost d: Shape) returns (ok: bool)
    requires Tree(s) && s.item == parent && Tree(d) && d.item == value && Items(d) !! Items(s) && value.next == null
    modifies parent`child, value`next, value`prev, Nodes(s.kids)`next, Nodes(s.kids)`prev
    ensures ok <==> which <= |s.kids|
    ensures var u := if ok then Shape(parent, Inserted(s.kids, which, d)) else s;
      Tree(u) && Items(u) <= Items(s) + Items(d)
  {
    KidsAllocated(s.kids);
    AllAllocated(d);
    RootsApart(s.kids);
    assert value in Items(d) && Nodes(d.kids) <= Items(d) && parent in Items(s);
    ghost var xs := Roots(s.kids);
    assert forall i :: 0 <= i < |xs| ==> xs[i] in Nodes(s.kids);
    assert Forest(s.kids) && Children(parent, xs) && Items(s) == {parent} + Nodes(s.kids);
    if which <= |s.kids| {
      ForestInserted(s.kids, which, d);
    }
    hide Inserted;
    hide Forest;
    hide Strung;
    hide Added;
    hide Nodes;
    hide Roots;
    ok := InsertItemStrict(parent, which, value, xs, |xs|);
    if ok {
      ForestInserted(s.kids, which, d);
    }
  }

  lemma HoldsInserted(s: Shape, es: seq<Json>, i: nat, d: Shape, v: Json)
    requires Holds(s, Arr(es)) && Holds(d, v) && i <= |es|
    ensures i <= |s.kids| && Holds(Shape(s.item, Inserted(s.kids, i, d)), Arr(Inserted(es, i, v)))
  {
    var us, vs := Inserted(s.kids, i, d), Inserted(es, i, v);
    DetachUndoesInsert(s.kids, i, d);
    DetachUndoesInsert(es, i, v);
    HoldElemsParts(us, vs, i);
  }

  /** The outcome of putting `v`, held by `d`, under `token` of the item that holds `k`. */
  ghost predicate Attached(status: int, parent: Item, s: Shape, s': Shape, d: Shape, r: Patch.Outcome)
    reads parent`child, Nodes(s'.kids)`next, Nodes(s'.kids)`prev, Nodes(s'.kids)`child
    reads Items(s')`kind, Items(s')`text, Items(s')`number, Items(s')`name
  {
    status == r.status && Stores(parent, s', r.doc) && Items(s') <= Items(s) + Items(d)
  }

  /** Behind the last element. */
  method AttachLast(parent: Item, value: Item, ghost s: Shape, ghost es: seq<Json>, ghost d: Shape, ghost v: Json)
    requires Stores(parent, s, Arr(es)) && Stores(value, d, v) && Items(d) !! Items(s) && value.next == null
    modifies parent`child, value`next, value`prev, Nodes(s.kids)`next, Nodes(s.kids)`prev
    ensures Stores(parent, Shape(parent, s.kids + [d]), Arr(es + [v]))
    ensures Items(Shape(parent, s.kids + [d])) == Items(s) + Items(d)
  {
    AllAllocated(s);
    AllAllocated(d);
    HoldElemsSnoc(s.kids, es, d, v);
    assert Holds(Shape(parent, s.kids + [d]), Arr(es + [v]));
    NodesSnoc(s.kids, d);
    KidsAllocated(s.kids + [d]);
    hide Holds;
    hide Tree;
    hide Nodes;
    AppendKid(parent, value, s, d);
  }

  /** In front of an element, or behind the last. */
  method AttachAt(parent: Item, value: Item, which: nat, ghost s: Shape, ghost es: seq<Json>, ghost d: Shape,
    ghost v: Json) returns (ok: bool)
    requires Stores(parent, s, Arr(es)) && Stores(value, d, v) && Items(d) !! Items(s) && value.next == null
    modifies parent`child, value`next, value`prev, Nodes(s.kids)`next, Nodes(s.kids)`prev
    ensures ok <==> which <= |es|
    ensures |s.kids| == |es| && (!ok ==> Stores(parent, s, Arr(es)))
    ensures ok ==> Stores(parent, Shape(parent, Inserted(s.kids, which, d)), Arr(Inserted(es, which, v)))
    ensures ok ==> Items(Shape(parent, Inserted(s.kids, which, d))) <= Items(s) + Items(d)
  {
    AllAllocated(s);
    AllAllocated(d);
    ElemKid(s, Arr(es), 0);
    if which <= |es| {
      HoldsInserted(s, es, which, d, v);
      ForestInserted(s.kids, which, d);
      AllAllocated(Shape(parent, Inserted(s.kids, which, d)));
    }
    hide Holds;
    hide Tree;
    hide Nodes;
    hide Inserted;
    ok := InsertKid(parent, which, value, s, d);
  }

  method AttachElem(parent: Item, value: Item, token: string, cs: bool, ghost s: Shape, ghost k: Json, ghost d: Shape,
    ghost v: Json) returns (status: int, ghost s': Shape)
    requires Stores(parent, s, k) && k.Arr? && Stores(value, d, v) && Items(d) !! Items(s) && value.next == null
    modifies parent`child, value`next, value`prev, Nodes(s.kids)`next, Nodes(s.kids)`prev
    ensures Attached(status, parent, s, s', d, Patch.AddChild(k, token, v, cs))
  {
    AllAllocated(s);
    AllAllocated(d);
    KidsAllocated(s.kids);
    KidsAllocated(d.kids);
    hide Stores;
    hide Items;
    ghost var es := k.elems;
    if token == "-" {
      AttachLast(parent, value, s, es, d, v);
      return 0, Shape(parent, s.kids + [d]);
    }
    var index := Pointer.DecodeIndexLoop(token);
    if index.None? {
      return 11, s;
    }
    var ok := AttachAt(parent, value, index.value, s, es, d, v);
    if !ok {
      return 10, s;
    }
    return 0, Shape(parent, Inserted(s.kids, index.value, d));
  }

  /** An object loses the member of that name, if it has one. */
  method DropNamed(parent: Item, name: string, cs: bool, ghost s: Shape, ghost ms: seq<Member<Json>>)
    returns (ghost u: Shape, ghost rest: seq<Member<Json>>)
    requires Stores(parent, s, Obj(ms))
    modifies parent`child, Nodes(s.kids)`next, Nodes(s.kids)`prev
    ensures rest == var i := FindKey(ms, name, cs); if i < |ms| then Without(ms, i) else ms
    ensures Stores(parent, u, Obj(rest)) && Items(u) <= Items(s) && Nodes(u.kids) <= Nodes(s.kids)
  {
    AllAllocated(s);
    KidsAllocated(s.kids);
    u, rest := s, ms;
    var kid;
    ghost var i;
    kid, i := FindNamed(parent, name, cs, s, Obj(ms));
    hide FindKey;
    if kid != null {
      u, rest := Shape(parent, Without(s.kids, i)), Without(ms, i);
      DropKid(parent, kid, s, ms, i);
    }
  }

  method DropKid(parent: Item, kid: Item, ghost s: Shape, ghost ms: seq<Member<Json>>, ghost i: nat)
    requires Stores(parent, s, Obj(ms)) && i < |ms| && i < |s.kids| && kid == s.kids[i].item
    modifies parent`child, Nodes(s.kids)`next, Nodes(s.kids)`prev
    ensures var u := Shape(parent, Without(s.kids, i));
      Stores(parent, u, Obj(Without(ms, i))) && Items(u) <= Items(s) && Nodes(u.kids) <= Nodes(s.kids)
    ensures Stores(kid, s.kids[i], ms[i].value) && kid.next == null && Items(s.kids[i]) <= Items(s)
    ensures Items(s.kids[i]) !! Items(Shape(parent, Without(s.kids, i)))
  {
    ghost var u := Shape(parent, Without(s.kids, i));
    AllAllocated(s);
    AllAllocated(u);
    WithoutHolds(s, Obj(ms), i);
    ForestParts(s.kids, i);
    assert Holds(u, Obj(Without(ms, i)));
    hide Holds;
    hide Tree;
    hide Without;
    hide Forest;
    DetachKid(parent, kid, s, i);
  }

  method AttachMember(parent: Item, value: Item, token: string, cs: bool, ghost s: Shape, ghost k: Json, ghost d: Shape,
    ghost v: Json) returns (ghost s': Shape)
    requires Stores(parent, s, k) && k.Obj? && Stores(value, d, v) && Items(d) !! Items(s) && value.next == null
    modifies parent`child, value`next, value`prev, value`name, Nodes(s.kids)`next, Nodes(s.kids)`prev
    ensures Attached(0, parent, s, s', d, Patch.AddChild(k, token, v, cs))
  {
    AllAllocated(s);
    AllAllocated(d);
    ghost var u, ms;
    u, ms := DropNamed(parent, token, cs, s, k.members);
    NamedLast(parent, value, token, u, ms, d, v);
    s' := Shape(parent, u.kids + [d]);
  }

  /** `add_item_to_object`: the item gets the name and goes behind the last member. */
  method NamedLast(parent: Item, value: Item, name: string, ghost s: Shape, ghost ms: seq<Member<Json>>, ghost d: Shape,
    ghost v: Json)
    requires Stores(parent, s, Obj(ms)) && Stores(value, d, v) && Items(d) !! Items(s) && value.next == null
    modifies parent`child, value`next, value`prev, value`name, Nodes(s.kids)`next, Nodes(s.kids)`prev
    ensures Stores(parent, Shape(parent, s.kids + [d]), Obj(ms + [Member(name, v)]))
    ensures Items(Shape(parent, s.kids + [d])) == Items(s) + Items(d)
  {
    AllAllocated(s);
    AllAllocated(d);
    NodesSnoc(s.kids, d);
    NameItem(parent, value, name, s, ms, d, v);
    AllAllocated(Shape(parent, s.kids + [d]));
    hide Holds;
    hide Tree;
    hide Nodes;
    hide Items;
    AppendKid(parent, value, s, d);
  }

  lemma HoldsAppended(s: Shape, k: Json, d: Shape, m: Member<Json>, r: Json)
    requires Holds(s, k) && k.Obj? && d.item.name == Some(m.key) && Holds(d, m.value) && r == Obj(k.members + [m])
    ensures Holds(Shape(s.item, s.kids + [d]), r)
  {
    HoldMembersSnoc(s.kids, k.members, d, m);
  }

  method NameItem(parent: Item, value: Item, name: string, ghost s: Shape, ghost ms: seq<Member<Json>>, ghost d: Shape,
    ghost v: Json)
    requires Stores(parent, s, Obj(ms)) && Stores(value, d, v) && value !in Items(s)
    modifies value`name
    ensures Tree(s) && Tree(d) && Holds(Shape(parent, s.kids + [d]), Obj(ms + [Member(name, v)]))
  {
    AllAllocated(s);
    AllAllocated(d);
    value.name := Some(name);
    HoldsAppended(s, Obj(ms), d, Member(name, v), Obj(ms + [Member(name, v)]));
  }

  /** Putting `value` under `token` of the item that holds `k`. */
  method AttachKid(parent: Item, value: Item, token: string, cs: bool, ghost s: Shape, ghost k: Json, ghost d: Shape,
    ghost v: Json) returns (status: int, ghost s': Shape)
    requires Stores(parent, s, k) && Stores(value, d, v) && Items(d) !! Items(s) && value.next == null
    modifies parent`child, value`next, value`prev, value`name, Nodes(s.kids)`next, Nodes(s.kids)`prev
    ensures Attached(status, parent, s, s', d, Patch.AddChild(k, token, v, cs))
  {
    KindOf(s, k);
    if parent.kind == ARRAY {
      status, s' := AttachElem(parent, value, token, cs, s, k, d, v);
    } else if parent.kind == OBJECT {
      s' := AttachMember(parent, value, token, cs, s, k, d, v);
      status := 0;
    } else {
      status, s' := 9, s;
    }
  }

  /** Putting `value` under `token` of the item at place `p`. */
  method PutInto(root: Item, parent: Item, value: Item, token: string, cs: bool, ghost t: Shape, ghost j: Json,
    ghost p: seq<nat>, ghost d: Shape, ghost v: Json) returns (status: int, ghost t': Shape)
    requires Stores(root, t, j) && Pointer.ValidPath(j, p) && Valid(t, p) && parent == Sub(t, p).item
    requires Stores(value, d, v) && Items(d) !! Items(t) && value.next == null
    modifies Items(t)`child, Items(t)`next, Items(t)`prev, value`next, value`prev, value`name
    ensures var r := Patch.AddChild(Pointer.At(j, p), token, v, cs);
      var doc := if r.status == 0 then Patch.Put(j, p, r.doc) else j;
      Attached(status, root, t, t', d, Patch.Outcome(r.status, doc))
  {
    ghost var s, k := Sub(t, p), Pointer.At(j, p);
    Unchanged(j, p, token, v, cs);
    RingTree(t, p);
    RimApart(t, p);
    SubHolds(t, j, p);
    ghost var u;
    status, u := AttachApart(parent, value, token, cs, t, j, p, d, v);
    hide Tree;
    hide Holds;
    hide Ring;
    hide Patch.AddChild;
    RingGraft(t, p, u);
    GraftHolds(t, j, p, u, Patch.AddChild(k, token, v, cs).doc);
    t' := Graft(t, p, u);
  }

  /** A refused addition changes nothing. */
  lemma Unchanged(j: Json, p: seq<nat>, token: string, v: Json, cs: bool)
    requires Pointer.ValidPath(j, p)
    ensures var r := Patch.AddChild(Pointer.At(j, p), token, v, cs); r.status != 0 ==> Patch.Put(j, p, r.doc) == j
  {
    PatchInverse.PutAt(j, p, Null, Null);
  }

  /** The rest of the tree is not touched. */
  method AttachApart(parent: Item, value: Item, token: string, cs: bool, ghost t: Shape, ghost j: Json,
    ghost p: seq<nat>, ghost d: Shape, ghost v: Json) returns (status: int, ghost u: Shape)
    requires Holds(t, j) && Valid(t, p) && Ring(t, p) && parent == Sub(t, p).item && Pointer.ValidPath(j, p)
    requires Stores(parent, Sub(t, p), Pointer.At(j, p))
    requires Stores(value, d, v) && Items(d) !! Items(t) && value.next == null
    modifies Items(t)`child, Items(t)`next, Items(t)`prev, value`next, value`prev, value`name
    ensures Holds(t, j) && Ring(t, p)
    ensures Attached(status, parent, Sub(t, p), u, d, Patch.AddChild(Pointer.At(j, p), token, v, cs))
  {
    ghost var s := Sub(t, p);
    AllAllocated(t);
    AllAllocated(d);
    RimApart(t, p);
    TopAlone(s);
    assert Items(s) == {parent} + Nodes(s.kids) && value in Items(d);
    hide Rim;
    hide Tree;
    hide Holds;
    hide Ring;
    hide Nodes;
    hide Items;
    hide Sub;
    hide Patch.AddChild;
    status, u := AttachKid(parent, value, token, cs, s, Pointer.At(j, p), d, v);
  }
}
