/** `apply_patch` on linked items: the document holds what the specification names. It stays a whole tree
    with complete lists until a `test` sorts a list whose ends move; then it stays linked. */
module ItemPatch {
  import opened Text
  import opened Json
  import opened SiblingList
  import opened ItemTree
  import opened ItemPaths
  import opened ItemEdit
  import opened ItemCompare
  import opened ItemTest
  import Pointer
  import Patch
  import Compare
  import PatchGen
  import PatchRoundTrip
  import PatchSteps
  import Duplicate
  import PatchStrings

  /** Status and document are those of the specification. */
  ghost predicate Applied(status: int, root: Item, t: Shape, r: Patch.Outcome, whole: bool := true)
    reads root`child, Nodes(t.kids)`next, Nodes(t.kids)`prev, Nodes(t.kids)`child
    reads Items(t)`kind, Items(t)`text, Items(t)`number, Items(t)`name
  {
    status == r.status && Stores(root, t, r.doc, whole)
  }

  // ---- copies ----

  lemma {:induction false} TreeWalkable(t: Shape, whole: bool)
    requires Tree(t, whole)
    ensures Duplicate.Walkable(t)
    decreases t, 1
  {
    KidsWalkable(t.kids, whole);
    if t.kids == [] {
    } else {
      ForestParts(t.kids, 0);
    }
  }

  lemma {:induction false} KidsWalkable(ts: seq<Shape>, whole: bool)
    requires Forest(ts, whole) && Linked(Roots(ts))
    ensures Duplicate.WalkableKids(ts)
    decreases ts, 0
  {
    if ts == [] {
    } else {
      TreeWalkable(ts[0], whole);
      assert Roots(ts)[0] == ts[0].item && Roots(ts)[1..] == Roots(ts[1..]);
      assert forall i :: 0 <= i < |ts| - 1 ==> Roots(ts[1..])[i] == Roots(ts)[i + 1];
      KidsWalkable(ts[1..], whole);
    }
  }

  /** `cJSON_Duplicate`: the copy is whole even if the lists of the original are not. */
  method CopyOf(item: Item, ghost s: Shape, ghost v: Json, ghost whole: bool := true)
    returns (copy: Item, ghost d: Shape)
    requires Stores(item, s, v, whole)
    ensures fresh(copy) && fresh(Items(d)) && Stores(copy, d, v) && copy.next == null && Stores(item, s, v, whole)
  {
    AllAllocated(s);
    KidsAllocated(s.kids);
    TreeWalkable(s, whole);
    copy, d := Duplicate.Copy(item, s);
    assert copy in Items(d);
    hide Tree;
    hide Items;
    hide Nodes;
    Duplicate.CopyHolds(s, d, v);
  }

  // ---- the root ----

  /** `overwrite_item` with an item of all zeros. */
  method Clear(root: Item)
    modifies root
    ensures Stores(root, Shape(root, []), Invalid)
  {
    root.next, root.prev, root.child := null, null, null;
    root.kind, root.text, root.number, root.name := 0, None, 0.0, None;
    Childless(root);
  }

  /** `overwrite_item` with the copy of a value, whose own name is dropped. */
  method Become(root: Item, value: Item, ghost d: Shape, ghost v: Json)
    requires Stores(value, d, v) && root !in Items(d)
    modifies root
    ensures Stores(root, Shape(root, d.kids), v)
  {
    AllAllocated(d);
    KidsAllocated(d.kids);
    root.next, root.prev, root.child := value.next, value.prev, value.child;
    root.kind, root.text, root.number, root.name := value.kind, value.text, value.number, None;
    SameTop(root, d, v);
  }

  lemma SameTop(root: Item, d: Shape, v: Json)
    requires Stores(d.item, d, v) && root !in Nodes(d.kids) && root.child == d.item.child
    requires root.kind == d.item.kind && root.text == d.item.text && root.number == d.item.number
    ensures Stores(root, Shape(root, d.kids), v)
  {
  }

  // ---- the operations ----

  /** The end of `apply_patch`: `value` goes to `path`. */
  method AttachItems(root: Item, path: string, value: Item, cs: bool, ghost t: Shape, ghost j: Json, ghost d: Shape,
    ghost v: Json) returns (status: int, ghost t': Shape)
    requires Stores(root, t, j) && NulFree(path)
    requires Stores(value, d, v) && Items(d) !! Items(t) && value.next == null
    modifies Items(t)`child, Items(t)`next, Items(t)`prev, value`next, value`prev, value`name
    ensures Attached(status, root, t, t', d, Patch.AddPath(j, path, v, cs))
  {
    hide *;
    AllAllocated(t);
    AllAllocated(d);
    KidsAllocated(t.kids);
    KidsAllocated(d.kids);
    var parent, token;
    ghost var p;
    parent, token, p := FindParent(root, path, cs, t, j);
    AddPathFound(j, path, v, cs, p, token, parent != null);
    if parent != null {
      status, t' := PutInto(root, parent, value, token, cs, t, j, p, d, v);
    } else {
      status, t' := 9, t;
      NotAttached(root, t, j, d);
    }
  }

  lemma AddPathFound(j: Json, path: string, v: Json, cs: bool, p: seq<nat>, token: string, found: bool)
    requires var s := Patch.LastSlash(path);
      && (!found <==> s < 0 || Pointer.GetItem(j, path[..s], cs).None?)
      && (found ==> Pointer.GetItem(j, path[..s], cs) == Some(p) && token == Patch.DecodeInPlace(path[s + 1..]))
    ensures Patch.AddPath(j, path, v, cs) ==
      if found then
        var r := Patch.AddChild(Pointer.At(j, p), token, v, cs);
        Patch.Outcome(r.status, if r.status == 0 then Patch.Put(j, p, r.doc) else j)
      else Patch.Outcome(9, j)
  {
    hide Patch.AddChild;
    hide Patch.DecodeInPlace;
    hide Patch.LastSlash;
    hide Pointer.GetItem;
  }

  lemma NotAttached(root: Item, t: Shape, j: Json, d: Shape)
    requires Stores(root, t, j)
    ensures Attached(9, root, t, t, d, Patch.Outcome(9, j))
  {
  }

  /** A copy of a value goes to `path`. */
  method PutCopy(root: Item, path: string, source: Item, cs: bool, ghost t: Shape, ghost j: Json, ghost s: Shape,
    ghost v: Json) returns (status: int, ghost t': Shape)
    requires Stores(root, t, j) && NulFree(path) && Stores(source, s, v, false)
    modifies Items(t)`child, Items(t)`next, Items(t)`prev
    ensures Applied(status, root, t', Patch.AddPath(j, path, v, cs))
    ensures forall x :: x in Items(t') ==> x in Items(t) || fresh(x)
  {
    AllAllocated(t);
    KidsAllocated(t.kids);
    hide Stores;
    hide Items;
    hide Nodes;
    hide Patch.AddPath;
    var copy;
    ghost var d;
    copy, d := CopyOf(source, s, v, false);
    status, t' := AttachItems(root, path, copy, cs, t, j, d, v);
  }

  /** `remove`. */
  method RemoveItem(root: Item, path: string, cs: bool, ghost t: Shape, ghost j: Json)
    returns (status: int, ghost t': Shape)
    requires Stores(root, t, j) && NulFree(path)
    modifies Items(t)`child, Items(t)`next, Items(t)`prev
    ensures var d := Patch.DetachPath(j, path, cs);
      Applied(status, root, t', if d.Some? then Patch.Outcome(0, d.value.1) else Patch.Outcome(13, j))
    ensures Items(t') <= Items(t)
  {
    hide Stores;
    hide Items;
    hide Nodes;
    hide Patch.DetachPath;
    var item;
    ghost var d;
    item, d, t' := DetachItems(root, path, cs, t, j);
    status := if item == null then 13 else 0;
  }

  /** `replace`: what is removed stays removed even if there is no new value. */
  method ReplaceItem(root: Item, path: string, value: Item?, cs: bool, ghost t: Shape, ghost j: Json, ghost s: Shape,
    ghost v: Json) returns (status: int, ghost t': Shape)
    requires Stores(root, t, j) && NulFree(path) && (value != null ==> Stores(value, s, v, false))
    requires value != null ==> Items(s) !! Items(t)
    modifies Items(t)`child, Items(t)`next, Items(t)`prev
    ensures var d := Patch.DetachPath(j, path, cs);
      Applied(status, root, t',
        if d.None? then Patch.Outcome(13, j)
        else if value == null then Patch.Outcome(7, d.value.1) else Patch.AddPath(d.value.1, path, v, cs))
    ensures forall x :: x in Items(t') ==> x in Items(t) || fresh(x)
  {
    AllAllocated(t);
    AllAllocated(s);
    KidsAllocated(s.kids);
    assert Nodes(s.kids) <= Items(s);
    hide Stores;
    hide Items;
    hide Nodes;
    hide Patch.AddPath;
    hide Patch.DetachPath;
    status, t' := RemoveItem(root, path, cs, t, j);
    if status != 0 {
      return;
    }
    if value == null {
      return 7, t';
    }
    status, t' := PutCopy(root, path, value, cs, t', Patch.DetachPath(j, path, cs).value.1, s, v);
  }

  /** `move`. */
  method MoveItem(root: Item, from: string, path: string, cs: bool, ghost t: Shape, ghost j: Json)
    returns (status: int, ghost t': Shape)
    requires Stores(root, t, j) && NulFree(from) && NulFree(path)
    modifies Items(t)`child, Items(t)`next, Items(t)`prev, Items(t)`name
    ensures var d := Patch.DetachPath(j, from, cs);
      Applied(status, root, t',
        if d.None? then Patch.Outcome(5, j) else Patch.AddPath(d.value.1, path, d.value.0, cs))
    ensures Items(t') <= Items(t)
  {
    hide Stores;
    hide Nodes;
    hide Patch.AddPath;
    hide Patch.DetachPath;
    var item;
    ghost var d;
    item, d, t' := DetachItems(root, from, cs, t, j);
    if item == null {
      return 5, t';
    }
    ghost var r := Patch.DetachPath(j, from, cs).value;
    status, t' := AttachItems(root, path, item, cs, t', r.1, d, r.0);
  }

  /** A whole tree is linked. */
  lemma StillLinked(root: Item, t: Shape, j: Json, whole: bool)
    requires Stores(root, t, j, whole)
    ensures Stores(root, t, j, false) && (whole ==> Tree(t))
  {
    if whole {
      WholeLinked(t);
    }
  }

  /** `copy`. */
  method CopyItem(root: Item, from: string, path: string, cs: bool, ghost t: Shape, ghost j: Json)
    returns (status: int, ghost t': Shape)
    requires Stores(root, t, j) && NulFree(path)
    modifies Items(t)`child, Items(t)`next, Items(t)`prev
    ensures var p := Pointer.GetItem(j, from, cs);
      Applied(status, root, t',
        if p.None? then Patch.Outcome(5, j) else Patch.AddPath(j, path, Pointer.At(j, p.value), cs))
    ensures forall x :: x in Items(t') ==> x in Items(t) || fresh(x)
  {
    AllAllocated(t);
    KidsAllocated(t.kids);
    hide Stores;
    hide Items;
    hide Nodes;
    hide Patch.AddPath;
    var source;
    ghost var p;
    source, p := FindItem(root, from, cs, t, j);
    if source == null {
      return 5, t;
    }
    StillLinked(source, Sub(t, p), Pointer.At(j, p), true);
    status, t' := PutCopy(root, path, source, cs, t, j, Sub(t, p), Pointer.At(j, p));
  }

  // ---- a whole patch ----

  /** A patch that can be read: an object, or another item whose children have no names. */
  ghost predicate Readable(patch: Item, t: Shape, j: Json)
    reads patch`child, Nodes(t.kids)`next, Nodes(t.kids)`prev, Nodes(t.kids)`child
    reads Items(t)`kind, Items(t)`text, Items(t)`number, Items(t)`name
  {
    Stores(patch, t, j, false) && (j.Obj? || Nameless(t))
  }

  /** A member of the patch. */
  method Fetch(patch: Item, name: string, cs: bool, ghost t: Shape, ghost j: Json) returns (item: Item?, ghost s: Shape)
    requires Readable(patch, t, j)
    ensures item == null <==> Patch.Lookup(j, name, cs).None?
    ensures item != null ==> Stores(item, s, Patch.Lookup(j, name, cs).value, false) && Items(s) <= Items(t)
  {
    AllAllocated(t);
    KidsAllocated(t.kids);
    ghost var i;
    item, i := FindNamed(patch, name, cs, t, j, false);
    s := t;
    if item != null {
      s := t.kids[i];
      KidStores(t, j, i, false);
      NodesOf(t.kids, i);
    }
  }

  /** `decode_patch_operation`. */
  method DecodeOperation(patch: Item, cs: bool, ghost t: Shape, ghost j: Json) returns (code: Option<Patch.Opcode>)
    requires Readable(patch, t, j)
    ensures code == Patch.DecodeOpcode(j, cs)
  {
    var operation;
    ghost var s;
    operation, s := Fetch(patch, "op", cs, t, j);
    if operation == null {
      return None;
    }
    KindOf(s, Patch.Lookup(j, "op", cs).value);
    if operation.kind != STRING {
      return None;
    }
    var name := operation.text.value;
    code := if name == "add" then Some(Patch.Add)
      else if name == "remove" then Some(Patch.Remove)
      else if name == "replace" then Some(Patch.Replace)
      else if name == "move" then Some(Patch.Move)
      else if name == "copy" then Some(Patch.Copy)
      else if name == "test" then Some(Patch.Test)
      else None;
  }

  lemma LookupCString(j: Json, name: string, cs: bool)
    requires CStrings(j)
    ensures var v := Patch.Lookup(j, name, cs); v.Some? && v.value.Str? ==> NulFree(v.value.s)
  {
  }

  /** The operation, once decoded. */
  method Perform(root: Item, patch: Item, code: Patch.Opcode, path: string, cs: bool, ghost t: Shape, ghost j: Json,
    ghost tp: Shape, ghost pj: Json) returns (status: int, ghost t': Shape)
    requires Stores(root, t, j) && Readable(patch, tp, pj) && Items(t) !! Items(tp) && CStrings(pj)
    requires code != Patch.Test && NulFree(path)
    modifies Items(t)
    ensures var op := Patch.Op(code, path, Patch.Lookup(pj, "value", cs), Patch.Lookup(pj, "from", cs));
      Applied(status, root, t', Patch.ApplyOp(j, op, cs)) && Readable(patch, tp, pj)
    ensures forall x :: x in Items(t') ==> x in Items(t) || fresh(x)
  {
    AllAllocated(tp);
    KidsAllocated(tp.kids);
    assert Nodes(tp.kids) <= Items(tp) && patch in Items(tp) && root in Items(t);
    hide Nameless;
    hide Tree;
    hide Holds;
    hide Stores;
    hide Readable;
    hide Items;
    hide Nodes;
    hide Patch.AddPath;
    hide Patch.DetachPath;
    hide Patch.Lookup;
    if code == Patch.Remove {
      if path == "" {
        Clear(root);
        return 0, Shape(root, []);
      }
      status, t' := RemoveItem(root, path, cs, t, j);
    } else if code == Patch.Move || code == Patch.Copy {
      status, t' := PerformFrom(root, patch, code, path, cs, t, j, tp, pj);
    } else {
      status, t' := PerformValue(root, patch, code, path, cs, t, j, tp, pj);
    }
  }

  /** `move` and `copy`. */
  method PerformFrom(root: Item, patch: Item, code: Patch.Opcode, path: string, cs: bool, ghost t: Shape, ghost j: Json,
    ghost tp: Shape, ghost pj: Json) returns (status: int, ghost t': Shape)
    requires Stores(root, t, j) && Readable(patch, tp, pj) && CStrings(pj)
    requires (code == Patch.Move || code == Patch.Copy) && NulFree(path)
    modifies Items(t)`child, Items(t)`next, Items(t)`prev, Items(t)`name
    ensures var op := Patch.Op(code, path, Patch.Lookup(pj, "value", cs), Patch.Lookup(pj, "from", cs));
      Applied(status, root, t', Patch.ApplyOp(j, op, cs))
    ensures forall x :: x in Items(t') ==> x in Items(t) || fresh(x)
  {
    AllAllocated(t);
    KidsAllocated(t.kids);
    hide Items;
    hide Nodes;
    hide Patch.AddPath;
    hide Patch.DetachPath;
    hide Patch.Lookup;
    var item;
    ghost var s;
    item, s := Fetch(patch, "from", cs, tp, pj);
    if item == null {
      return 4, t;
    }
    KindOf(s, Patch.Lookup(pj, "from", cs).value);
    if item.kind != STRING {
      return 5, t;
    }
    LookupCString(pj, "from", cs);
    hide Stores;
    hide Readable;
    if code == Patch.Move {
      status, t' := MoveItem(root, item.text.value, path, cs, t, j);
    } else {
      status, t' := CopyItem(root, item.text.value, path, cs, t, j);
    }
  }

  /** `add` and `replace`. */
  method PerformValue(root: Item, patch: Item, code: Patch.Opcode, path: string, cs: bool, ghost t: Shape,
    ghost j: Json, ghost tp: Shape, ghost pj: Json) returns (status: int, ghost t': Shape)
    requires Stores(root, t, j) && Readable(patch, tp, pj) && Items(t) !! Items(tp)
    requires (code == Patch.Add || code == Patch.Replace) && NulFree(path)
    modifies Items(t)
    ensures var op := Patch.Op(code, path, Patch.Lookup(pj, "value", cs), Patch.Lookup(pj, "from", cs));
      Applied(status, root, t', Patch.ApplyOp(j, op, cs))
    ensures forall x :: x in Items(t') ==> x in Items(t) || fresh(x)
  {
    AllAllocated(t);
    KidsAllocated(t.kids);
    assert root in Items(t);
    hide Stores;
    hide Readable;
    hide Items;
    hide Nodes;
    hide Patch.AddPath;
    hide Patch.DetachPath;
    hide Patch.Lookup;
    var item;
    ghost var s;
    item, s := Fetch(patch, "value", cs, tp, pj);
    ghost var v := if item != null then Patch.Lookup(pj, "value", cs).value else Null;
    if path == "" {
      if item == null {
        return 7, t;
      }
      status, t' := ReplaceRoot(root, item, t, s, v);
    } else if code == Patch.Replace {
      status, t' := ReplaceItem(root, path, item, cs, t, j, s, v);
    } else if item == null {
      status, t' := 7, t;
    } else {
      status, t' := PutCopy(root, path, item, cs, t, j, s, v);
    }
  }

  method ReplaceRoot(root: Item, value: Item, ghost t: Shape, ghost s: Shape, ghost v: Json)
    returns (status: int, ghost t': Shape)
    requires root in Items(t) && Stores(value, s, v, false)
    modifies root
    ensures status == 0 && Stores(root, t', v)
    ensures forall x :: x in Items(t') ==> x in Items(t) || fresh(x)
  {
    var copy;
    ghost var d;
    copy, d := CopyOf(value, s, v, false);
    Become(root, copy, d, v);
    status, t' := 0, Shape(root, d.kids);
  }

  // ---- a patch ----

  ghost predicate Decoded(patch: Json, cs: bool) {
    var path := Patch.Lookup(patch, "path", cs);
    Patch.DecodeOpcode(patch, cs).Some? && path.Some? && path.value.Str?
  }

  /** The patch is carried out, and is no `test`. */
  ghost predicate Edits(patch: Json, cs: bool) {
    Decoded(patch, cs) && Patch.DecodeOpcode(patch, cs) != Some(Patch.Test)
  }

  ghost predicate Tests(patch: Json, cs: bool) {
    Decoded(patch, cs) && Patch.DecodeOpcode(patch, cs) == Some(Patch.Test)
  }

  /** Whether a whole document is whole after that patch. */
  ghost predicate WholeAfter(j: Json, patch: Json, cs: bool) {
    Tests(patch, cs) ==> WholeTest(j, Patch.Lookup(patch, "path", cs).value.s, Patch.Lookup(patch, "value", cs), cs)
  }

  /** What is left of the patch itself. */
  ghost function PatchAfter(j: Json, patch: Json, cs: bool): Json {
    if Tests(patch, cs) then TestedPatch(j, Patch.Lookup(patch, "path", cs).value.s, patch, cs) else patch
  }

  /** The start of `apply_patch`: the path and the operation, or the status of a malformed patch. */
  method ReadPatch(patch: Item, cs: bool, ghost j: Json, ghost tp: Shape, ghost pj: Json)
    returns (status: int, code: Patch.Opcode, path: string)
    requires Readable(patch, tp, pj) && CStrings(pj)
    ensures status == 0 <==> Decoded(pj, cs)
    ensures status == 0 ==>
      Patch.DecodeOpcode(pj, cs) == Some(code) && Patch.Lookup(pj, "path", cs) == Some(Str(path)) && NulFree(path)
    ensures status != 0 ==> Patch.ApplyPatch(j, pj, cs) == Patch.Outcome(status, j)
  {
    AllAllocated(tp);
    KidsAllocated(tp.kids);
    code, path := Patch.Add, "";
    var pathItem, decoded;
    ghost var s;
    pathItem, s := Fetch(patch, "path", cs, tp, pj);
    if pathItem == null {
      return 2, code, path;
    }
    KindOf(s, Patch.Lookup(pj, "path", cs).value);
    if pathItem.kind != STRING {
      return 2, code, path;
    }
    LookupCString(pj, "path", cs);
    decoded := DecodeOperation(patch, cs, tp, pj);
    if decoded.None? {
      return 3, code, path;
    }
    return 0, decoded.value, pathItem.text.value;
  }

  /** What the specification says of a patch that has been decoded. */
  lemma ApplyDecoded(j: Json, pj: Json, cs: bool, code: Patch.Opcode, path: string)
    requires Decoded(pj, cs) && Patch.DecodeOpcode(pj, cs) == Some(code)
    requires Patch.Lookup(pj, "path", cs) == Some(Str(path))
    ensures var value := Patch.Lookup(pj, "value", cs);
      var op := Patch.Op(code, path, value, Patch.Lookup(pj, "from", cs));
      && Patch.ApplyPatch(j, pj, cs) == Patch.ApplyOp(j, op, cs) && pj.Obj?
      && (code != Patch.Test <==> Edits(pj, cs))
      && if code == Patch.Test then
        && Patch.ApplyPatch(j, pj, cs) == Patch.ApplyOp(j, Patch.Op(code, path, value, None), cs)
        && (WholeAfter(j, pj, cs) <==> WholeTest(j, path, value, cs))
        && PatchAfter(j, pj, cs) == TestedPatch(j, path, pj, cs)
      else
        WholeAfter(j, pj, cs) && PatchAfter(j, pj, cs) == pj
  {
    hide FindKey;
    hide WholeTest;
    hide TestedPatch;
    hide Patch.AddPath;
    hide Patch.DetachPath;
    hide Pointer.GetItem;
  }

  lemma Refused(j: Json, pj: Json, cs: bool)
    requires !Decoded(pj, cs)
    ensures WholeAfter(j, pj, cs) && PatchAfter(j, pj, cs) == pj
  {
  }

  lemma AppliedLoosely(status: int, root: Item, t: Shape, r: Patch.Outcome)
    requires Applied(status, root, t, r)
    ensures Applied(status, root, t, r, false) && Tree(t)
  {
    StillLinked(root, t, r.doc, true);
  }

  lemma AppliedIs(status: int, root: Item, t: Shape, r: Patch.Outcome, whole: bool)
    requires status == r.status && Stores(root, t, r.doc, whole)
    ensures Applied(status, root, t, r, whole)
  {
  }

  /** `apply_patch`. An edit needs the lists of the document whole; a `test` does not, and it leaves them
      whole, if they were, exactly if no list it visits in the document moves at an end. */
  method ApplyItem(root: Item, patch: Item, cs: bool, ghost t: Shape, ghost j: Json, ghost tp: Shape, ghost pj: Json,
    ghost whole: bool) returns (status: int, ghost t': Shape, ghost tp': Shape)
    requires Stores(root, t, j, whole) && Readable(patch, tp, pj) && Items(t) !! Items(tp)
    requires CStrings(j) && CStrings(pj) && (whole || !Edits(pj, cs))
    modifies Items(t), Items(tp)`child, Nodes(tp.kids)`next, Nodes(tp.kids)`prev
    ensures Applied(status, root, t', Patch.ApplyPatch(j, pj, cs), false)
    ensures whole ==> (Tree(t') <==> WholeAfter(j, pj, cs))
    ensures Stores(patch, tp', PatchAfter(j, pj, cs), false) && Items(tp') == Items(tp)
    ensures forall x :: x in Items(t') ==> x in Items(t) || fresh(x)
  {
    hide *;
    AllAllocated(t);
    AllAllocated(tp);
    KidsAllocated(t.kids);
    KidsAllocated(tp.kids);
    ItemsApart(t, tp);
    StillLinked(root, t, j, whole);
    Reads(patch, tp, pj);
    t', tp' := t, tp;
    var code, path;
    status, code, path := ReadPatch(patch, cs, j, tp, pj);
    if status != 0 {
      Refused(j, pj, cs);
    } else {
      ApplyDecoded(j, pj, cs, code, path);
      if code == Patch.Test {
        status, t', tp' := TestItem(root, patch, path, cs, t, j, tp, pj);
      } else {
        status, t' := Perform(root, patch, code, path, cs, t, j, tp, pj);
        Reads(patch, tp, pj);
        AppliedLoosely(status, root, t', Patch.ApplyPatch(j, pj, cs));
        return;
      }
    }
    AppliedIs(status, root, t', Patch.ApplyPatch(j, pj, cs), false);
  }

  lemma Reads(patch: Item, tp: Shape, pj: Json)
    requires Readable(patch, tp, pj)
    ensures Stores(patch, tp, pj, false)
  {
  }

  // ---- a list of patches ----

  /** No patch edits the document once a test has left a list of it that may not be whole. */
  ghost predicate Orderly(j: Json, ps: seq<Json>, cs: bool, whole: bool)
    decreases |ps|
  {
    ps == [] || (
      var r := Patch.ApplyPatch(j, ps[0], cs);
      && (whole || !Edits(ps[0], cs))
      && (r.status == 0 ==> Orderly(r.doc, ps[1..], cs, whole && WholeAfter(j, ps[0], cs))))
  }

  /** Whether the document is whole in the end. */
  ghost predicate EndsWhole(j: Json, ps: seq<Json>, cs: bool, whole: bool)
    decreases |ps|
  {
    if ps == [] then whole
    else
      var r, w := Patch.ApplyPatch(j, ps[0], cs), whole && WholeAfter(j, ps[0], cs);
      if r.status != 0 then w else EndsWhole(r.doc, ps[1..], cs, w)
  }

  /** Every patch can be read. */
  ghost predicate AllReadable(ts: seq<Shape>, ps: seq<Json>)
    reads Nodes(ts)`name
  {
    |ts| == |ps| && forall i :: 0 <= i < |ps| ==> ps[i].Obj? || (KidsInside(ts, i); Nameless(ts[i]))
  }

  lemma KidsInside(ts: seq<Shape>, i: nat)
    requires i < |ts|
    ensures Nodes(ts[i].kids) <= Nodes(ts)
  {
    NodesOf(ts, i);
  }

  /** The patch under the cursor; everything else of the list of patches stays as it is. */
  method ApplyInside(root: Item, patch: Item, cs: bool, ghost t: Shape, ghost j: Json, ghost v: View, ghost i: nat,
    ghost whole: bool) returns (status: int, ghost t': Shape, ghost w: View)
    requires Stores(root, t, j, whole) && CStrings(j) && i < |v.tree.kids| && i < |Pointer.Children(v.doc)| && !v.was
    requires Apart(v.tree, i) && Around(v, i) && Holds(v.tree, v.doc) && patch == v.tree.kids[i].item
    requires Readable(patch, v.tree.kids[i], Pointer.Children(v.doc)[i]) && Items(t) !! Items(v.tree)
    requires var pj := Pointer.Children(v.doc)[i]; CStrings(pj) && (whole || !Edits(pj, cs))
    modifies Items(t), Items(v.tree.kids[i])`child, Nodes(v.tree.kids[i].kids)`next, Nodes(v.tree.kids[i].kids)`prev
    ensures Around(v, i) && Holds(v.tree, v.doc)
    ensures var pj := Pointer.Children(v.doc)[i];
      && Applied(status, root, t', Patch.ApplyPatch(j, pj, cs), false)
      && (whole ==> (Tree(t') <==> WholeAfter(j, pj, cs)))
      && Turned(View(v.tree.kids[i], pj, v.was, true, w.orphan), w, PatchAfter(j, pj, cs), true)
    ensures forall x :: x in Items(t') ==> x in Items(t) || fresh(x)
  {
    hide *;
    Reach(v.tree, i);
    AllAllocated(t);
    ghost var tp', pj := v.tree.kids[i], Pointer.Children(v.doc)[i];
    status, t', tp' := ApplyItem(root, patch, cs, t, j, tp', pj, whole);
    w := View(tp', PatchAfter(j, pj, cs), false, true);
    PatchTurned(v.tree.kids[i], pj, w, patch);
  }

  lemma PatchTurned(k: Shape, pj: Json, w: View, patch: Item)
    requires Stores(patch, w.tree, w.doc, false) && Items(w.tree) == Items(k) && k.item == patch
    requires w == View(w.tree, w.doc, false, true)
    ensures Turned(View(k, pj, false, true, w.orphan), w, w.doc, true)
  {
  }

  /** The patch under the cursor is ready to be applied. */
  lemma PatchReady(x: Item, v: View, m: View, ps: seq<Json>, l: seq<Json>)
    requires AtElem(v, m, ps, l, true) && Points(x, v, |l|) && |l| < |ps| && !v.was
    requires AllReadable(v.tree.kids, ps) && CStrings(Arr(ps))
    ensures var i := |l|;
      && i < |m.tree.kids| && i < |Pointer.Children(m.doc)| && !m.was && m.doc == Elems(l, ps) && m.doc.Arr?
      && Apart(m.tree, i) && Around(m, i) && Holds(m.tree, m.doc) && x == m.tree.kids[i].item
      && Alike(v, m, i, true)
      && Pointer.Children(m.doc)[i] == ps[i] && Readable(x, m.tree.kids[i], ps[i]) && CStrings(ps[i])
      && Items(m.tree) == Items(v.tree) && Items(m.tree.kids[i]) <= Items(v.tree)
      && Nodes(m.tree.kids[i].kids) <= Nodes(v.tree.kids)
  {
    var i := |l|;
    NextElem(l, ps, Null);
    Ready(x, v, m, i, Elems(l, ps), true);
    Open(m, i);
    assert m.tree.kids[i] == m.tree.kids[i..][0] == v.tree.kids[i..][0] == v.tree.kids[i];
    hide AtElem;
    hide Points;
    hide Around;
    hide Holds;
    hide Tree;
    hide Nodes;
    hide Items;
    hide Patch.SetChild;
  }

  lemma AtElemIs(v: View, w: View, ps: seq<Json>, l: seq<Json>)
    requires |l| <= |ps| && AtChild(v, w, |l|, Elems(l, ps), true)
    ensures AtElem(v, w, ps, l, true)
  {
  }

  /** One round of the loop over the patches. */
  method ApplyNext(root: Item, x: Item, cs: bool, ghost t: Shape, ghost j: Json, ghost v: View, ghost m: View,
    ghost ps: seq<Json>, ghost l: seq<Json>, ghost whole: bool)
    returns (status: int, ghost t': Shape, ghost m': View, ghost l': seq<Json>)
    requires Stores(root, t, j, whole) && CStrings(j) && !v.was && Items(t) !! Items(v.tree)
    requires AtElem(v, m, ps, l, true) && Points(x, v, |l|) && |l| < |ps|
    requires AllReadable(v.tree.kids, ps) && CStrings(Arr(ps)) && (whole || !Edits(ps[|l|], cs))
    modifies Items(t), Items(v.tree)`child, Nodes(v.tree.kids)`next, Nodes(v.tree.kids)`prev
    ensures Applied(status, root, t', Patch.ApplyPatch(j, ps[|l|], cs), false)
    ensures whole ==> (Tree(t') <==> WholeAfter(j, ps[|l|], cs))
    ensures l' == l + [PatchAfter(j, ps[|l|], cs)] && AtElem(v, m', ps, l', true) && Points(x.next, v, |l'|)
    ensures AllReadable(v.tree.kids, ps) && forall y :: y in Items(t') ==> y in Items(t) || fresh(y)
  {
    hide *;
    ItemsApart(t, v.tree);
    PatchReady(x, v, m, ps, l);
    AllAllocated(v.tree);
    KidsAllocated(v.tree.kids);
    ghost var i, pa, w := |l|, PatchAfter(j, ps[|l|], cs), m;
    status, t', w := ApplyInside(root, x, cs, t, j, m, i, whole);
    Close(m, i, w, pa, true);
    m' := Visited(m, i, w.tree, pa, true);
    Visiting(x, v, m, m', i, true, pa, true);
    NextElem(l, ps, pa);
    l' := l + [pa];
    AtElemIs(v, m', ps, l');
  }

  /** What is left of the patches that were applied: the values of the tests have been sorted. */
  ghost function PatchesAfter(j: Json, ps: seq<Json>, cs: bool): (r: seq<Json>)
    ensures |r| == |ps|
    decreases |ps|
  {
    if ps == [] then []
    else
      var r := Patch.ApplyPatch(j, ps[0], cs);
      [PatchAfter(j, ps[0], cs)] + if r.status != 0 then ps[1..] else PatchesAfter(r.doc, ps[1..], cs)
  }

  /** The state of the loop over the patches. */
  ghost predicate Running(j: Json, ps: seq<Json>, cs: bool, k: Json, l: seq<Json>, whole: bool) {
    && |l| <= |ps| && CStrings(k) && Orderly(k, ps[|l|..], cs, whole)
    && Patch.ApplyPatches(j, ps, cs) == Patch.ApplyPatches(k, ps[|l|..], cs)
    && (EndsWhole(j, ps, cs, true) <==> EndsWhole(k, ps[|l|..], cs, whole))
    && PatchesAfter(j, ps, cs) == l + PatchesAfter(k, ps[|l|..], cs)
  }

  lemma RunningOn(j: Json, ps: seq<Json>, cs: bool, k: Json, l: seq<Json>, whole: bool)
    requires Running(j, ps, cs, k, l, whole) && |l| < |ps| && CStrings(Arr(ps))
    ensures whole || !Edits(ps[|l|], cs)
    ensures var r, w, m := Patch.ApplyPatch(k, ps[|l|], cs), whole && WholeAfter(k, ps[|l|], cs),
        l + [PatchAfter(k, ps[|l|], cs)];
      if r.status == 0 then Running(j, ps, cs, r.doc, m, w)
      else
        && Patch.ApplyPatches(j, ps, cs) == r && (EndsWhole(j, ps, cs, true) <==> w)
        && PatchesAfter(j, ps, cs) == m + ps[|l| + 1..]
  {
    hide *;
    var us := ps[|l|..];
    assert us[0] == ps[|l|] && us[1..] == ps[|l| + 1..];
    RunningIs(j, ps, cs, k, l, whole);
    PatchFirst(k, us, cs, whole);
    var pa := PatchAfter(k, us[0], cs);
    var m := l + [pa];
    ElemStrings(Arr(ps), |l|);
    PatchStrings.StringsAfterPatch(k, us[0], cs);
    assert ps[|m|..] == us[1..];
    Regroup(l, pa, PatchesAfter(k, us, cs)[1..]);
    if Patch.ApplyPatch(k, us[0], cs).status == 0 {
      IsRunning(j, ps, cs, Patch.ApplyPatch(k, us[0], cs).doc, m, whole && WholeAfter(k, us[0], cs));
    }
  }

  lemma RunningIs(j: Json, ps: seq<Json>, cs: bool, k: Json, l: seq<Json>, whole: bool)
    requires Running(j, ps, cs, k, l, whole)
    ensures |l| <= |ps| && CStrings(k) && Orderly(k, ps[|l|..], cs, whole)
    ensures Patch.ApplyPatches(j, ps, cs) == Patch.ApplyPatches(k, ps[|l|..], cs)
    ensures EndsWhole(j, ps, cs, true) <==> EndsWhole(k, ps[|l|..], cs, whole)
    ensures PatchesAfter(j, ps, cs) == l + PatchesAfter(k, ps[|l|..], cs)
  {
  }

  lemma IsRunning(j: Json, ps: seq<Json>, cs: bool, k: Json, l: seq<Json>, whole: bool)
    requires |l| <= |ps| && CStrings(k) && Orderly(k, ps[|l|..], cs, whole)
    requires Patch.ApplyPatches(j, ps, cs) == Patch.ApplyPatches(k, ps[|l|..], cs)
    requires EndsWhole(j, ps, cs, true) <==> EndsWhole(k, ps[|l|..], cs, whole)
    requires PatchesAfter(j, ps, cs) == l + PatchesAfter(k, ps[|l|..], cs)
    ensures Running(j, ps, cs, k, l, whole)
  {
  }

  lemma PatchFirst(k: Json, us: seq<Json>, cs: bool, whole: bool)
    requires us != [] && Orderly(k, us, cs, whole)
    ensures var r, w := Patch.ApplyPatch(k, us[0], cs), whole && WholeAfter(k, us[0], cs);
      && (whole || !Edits(us[0], cs)) && (r.status == 0 ==> Orderly(r.doc, us[1..], cs, w))
      && Patch.ApplyPatches(k, us, cs) == (if r.status != 0 then r else Patch.ApplyPatches(r.doc, us[1..], cs))
      && (EndsWhole(k, us, cs, whole) <==> if r.status != 0 then w else EndsWhole(r.doc, us[1..], cs, w))
      && PatchesAfter(k, us, cs)[0] == PatchAfter(k, us[0], cs)
      && PatchesAfter(k, us, cs)[1..] == (if r.status != 0 then us[1..] else PatchesAfter(r.doc, us[1..], cs))
    ensures PatchesAfter(k, us, cs) == [PatchesAfter(k, us, cs)[0]] + PatchesAfter(k, us, cs)[1..]
  {
    hide Patch.ApplyPatch;
    hide PatchAfter;
    hide WholeAfter;
    hide Edits;
  }

  /** What the loop has done in the end. */
  ghost predicate Ran(status: int, root: Item, t: Shape, j: Json, ps: seq<Json>, cs: bool)
    reads root`child, Nodes(t.kids)`next, Nodes(t.kids)`prev, Nodes(t.kids)`child
    reads Items(t)`kind, Items(t)`text, Items(t)`number, Items(t)`name
  {
    Applied(status, root, t, Patch.ApplyPatches(j, ps, cs), false) && (EndsWhole(j, ps, cs, true) ==> Tree(t))
  }

  /** The document after one patch. */
  lemma AfterNext(status: int, root: Item, t: Shape, r: Patch.Outcome, w: bool)
    requires Applied(status, root, t, r, false) && (w ==> Tree(t))
    ensures status == r.status && Stores(root, t, r.doc, w)
  {
  }

  lemma RanTo(status: int, root: Item, t: Shape, j: Json, ps: seq<Json>, cs: bool, k: Json, w: bool)
    requires Stores(root, t, k, w) && Patch.ApplyPatches(j, ps, cs) == Patch.Outcome(status, k)
    requires EndsWhole(j, ps, cs, true) <==> w
    ensures Ran(status, root, t, j, ps, cs)
  {
    StillLinked(root, t, k, w);
  }

  lemma PatchesLeft(v: View, m: View, ps: seq<Json>, l: seq<Json>)
    requires AtElem(v, m, ps, l, true) && v.whole
    ensures |l| <= |ps| && Stores(v.tree.item, m.tree, Arr(l + ps[|l|..]), false) && Items(m.tree) == Items(v.tree)
  {
    ElemStop(v, m, ps, l, true);
    hide AtElem;
  }

  lemma RunningEnd(j: Json, ps: seq<Json>, cs: bool, k: Json, l: seq<Json>, w: bool)
    requires Running(j, ps, cs, k, l, w) && |l| == |ps|
    ensures Patch.ApplyPatches(j, ps, cs) == Patch.Outcome(0, k) && (EndsWhole(j, ps, cs, true) <==> w)
    ensures PatchesAfter(j, ps, cs) == l == l + ps[|l|..]
  {
    assert ps[|l|..] == [];
  }

  lemma PatchesStart(patches: Item, tp: Shape, ps: seq<Json>)
    requires Stores(patches, tp, Arr(ps), false)
    ensures var v := View(tp, Arr(ps), false, true);
      tp.item == patches && AtElem(v, v, ps, [], true) && Points(patches.child, v, 0)
  {
    var v := View(tp, Arr(ps), false, true);
    KidCount(tp, Arr(ps));
    assert ps == [] + ps[0..];
    PointsFirst(v, v, 0, true);
    hide Points;
    hide Tree;
    hide Holds;
    hide Nodes;
  }

  lemma RunningStart(j: Json, ps: seq<Json>, cs: bool)
    requires CStrings(j) && Orderly(j, ps, cs, true)
    ensures Running(j, ps, cs, j, [], true)
  {
    assert ps[0..] == ps && PatchesAfter(j, ps, cs) == [] + PatchesAfter(j, ps, cs);
    hide CStrings;
    hide Orderly;
    hide Patch.ApplyPatches;
    hide EndsWhole;
    hide PatchesAfter;
  }

  /** The loop over the patches. */
  method ApplyAll(root: Item, patches: Item, cs: bool, ghost t: Shape, ghost j: Json, ghost tp: Shape,
    ghost ps: seq<Json>) returns (status: int, ghost t': Shape, ghost tp': Shape)
    requires Stores(root, t, j) && Stores(patches, tp, Arr(ps), false) && Items(t) !! Items(tp)
    requires CStrings(j) && CStrings(Arr(ps)) && Orderly(j, ps, cs, true) && AllReadable(tp.kids, ps)
    modifies Items(t), Items(tp)`child, Nodes(tp.kids)`next, Nodes(tp.kids)`prev
    ensures Ran(status, root, t', j, ps, cs)
    ensures Stores(patches, tp', Arr(PatchesAfter(j, ps, cs)), false) && Items(tp') == Items(tp)
  {
    hide *;
    AllAllocated(tp);
    ghost var v := View(tp, Arr(ps), false, true);
    PatchesStart(patches, tp, ps);
    RunningStart(j, ps, cs);
    ghost var m, k, l: seq<Json>, w := v, j, [], true;
    t' := t;
    var x := patches.child;
    while x != null
      invariant Stores(root, t', k, w) && Items(t') !! Items(tp) && Running(j, ps, cs, k, l, w)
      invariant forall y :: y in Items(t') ==> y in Items(t) || fresh(y)
      invariant AtElem(v, m, ps, l, true) && Points(x, v, |l|) && AllReadable(tp.kids, ps)
      decreases |ps| - |l|
    {
      ElemHere(x, v, m, ps, l, true);
      RunningIs(j, ps, cs, k, l, w);
      RunningOn(j, ps, cs, k, l, w);
      ghost var r := Patch.ApplyPatch(k, ps[|l|], cs);
      ghost var i := |l|;
      status, t', m, l := ApplyNext(root, x, cs, t', k, v, m, ps, l, w);
      assert |l| == i + 1 && ps[|l|..] == ps[i + 1..];
      w := w && WholeAfter(k, ps[i], cs);
      AfterNext(status, root, t', r, w);
      k := r.doc;
      if status != 0 {
        PatchesLeft(v, m, ps, l);
        RanTo(status, root, t', j, ps, cs, k, w);
        assert PatchesAfter(j, ps, cs) == l + ps[|l|..];
        tp' := m.tree;
        return;
      }
      x := x.next;
    }
    ElemHere(x, v, m, ps, l, true);
    RunningEnd(j, ps, cs, k, l, w);
    PatchesLeft(v, m, ps, l);
    RanTo(0, root, t', j, ps, cs, k, w);
    status, tp' := 0, m.tree;
  }

  /** `cJSONUtils_ApplyPatches` and its case-sensitive twin. */
  method ApplyItems(root: Item, patches: Item, cs: bool, ghost t: Shape, ghost j: Json, ghost tp: Shape, ghost pj: Json)
    returns (status: int, ghost t': Shape, ghost tp': Shape)
    requires Stores(root, t, j) && Stores(patches, tp, pj, false) && Items(t) !! Items(tp)
    requires CStrings(j) && CStrings(pj)
    requires pj.Arr? ==> Orderly(j, pj.elems, cs, true) && AllReadable(tp.kids, pj.elems)
    modifies Items(t), Items(tp)`child, Nodes(tp.kids)`next, Nodes(tp.kids)`prev
    ensures pj.Arr? ==> Ran(status, root, t', j, pj.elems, cs)
    ensures pj.Arr? ==> Stores(patches, tp', Arr(PatchesAfter(j, pj.elems, cs)), false)
    ensures !pj.Arr? ==> status == 1 && Stores(root, t', j) && Stores(patches, tp', pj, false)
    ensures Items(tp') == Items(tp)
  {
    KindOf(tp, pj);
    if patches.kind != ARRAY {
      return 1, t, tp;
    }
    hide *;
    status, t', tp' := ApplyAll(root, patches, cs, t, j, tp, pj.elems);
  }

  // ---- generated patches ----

  /** Every patch is an object, and none is a `test`. */
  ghost predicate NoTest(ps: seq<Json>, cs: bool) {
    forall i :: 0 <= i < |ps| ==> ps[i].Obj? && Patch.DecodeOpcode(ps[i], cs) != Some(Patch.Test)
  }

  /** Without a `test` the document stays whole, and the patches stay as they are. */
  lemma {:induction false} NoTestOrderly(j: Json, ps: seq<Json>, cs: bool)
    requires NoTest(ps, cs)
    ensures Orderly(j, ps, cs, true) && EndsWhole(j, ps, cs, true) && PatchesAfter(j, ps, cs) == ps
    decreases |ps|
  {
    if ps == [] {
    } else {
      assert forall i :: 0 <= i < |ps[1..]| ==> ps[1..][i] == ps[i + 1];
      assert !Tests(ps[0], cs);
      NoTestOrderly(Patch.ApplyPatch(j, ps[0], cs).doc, ps[1..], cs);
      hide Patch.ApplyPatch;
      hide Patch.DecodeOpcode;
      hide Patch.Lookup;
      hide WholeTest;
    }
  }

  lemma {:induction false} GeneratedNoTest(ops: seq<Patch.Op>)
    requires PatchSteps.AllGenerated(ops)
    ensures NoTest(PatchSteps.ComposedAll(ops), CI)
  {
    if ops == [] {
    } else {
      PatchSteps.ApplyComposed(Null, ops[0], CI);
      GeneratedNoTest(ops[1..]);
      hide Patch.ApplyPatch;
      hide Patch.DecodeOpcode;
      var all, rest := PatchSteps.ComposedAll(ops), PatchSteps.ComposedAll(ops[1..]);
      forall i | 0 <= i < |all| ensures all[i].Obj? && Patch.DecodeOpcode(all[i], CI) != Some(Patch.Test) {
        assert i > 0 ==> all[i] == rest[i - 1];
      }
    }
  }

  /** What applying generated patches starts from. */
  lemma GeneratedReady(j: Json, tp: Shape, from: Json, to: Json)
    requires Holds(tp, Arr(PatchSteps.GeneratedPatches(from, to)))
    ensures var ps := PatchSteps.GeneratedPatches(from, to);
      && Orderly(j, ps, CI, true) && EndsWhole(j, ps, CI, true) && PatchesAfter(j, ps, CI) == ps
      && AllReadable(tp.kids, ps)
  {
    var ps := PatchSteps.GeneratedPatches(from, to);
    PatchSteps.OpsGenerated("", from, to, CI);
    GeneratedNoTest(PatchGen.Ops("", from, to, CI));
    NoTestOrderly(j, ps, CI);
    KidCount(tp, Arr(ps));
    hide Orderly;
    hide EndsWhole;
    hide PatchesAfter;
    hide Holds;
  }

  lemma RanWhole(status: int, root: Item, t: Shape, j: Json, ps: seq<Json>, cs: bool)
    requires Ran(status, root, t, j, ps, cs) && EndsWhole(j, ps, cs, true)
    ensures var r := Patch.ApplyPatches(j, ps, cs); status == r.status && Stores(root, t, r.doc)
  {
  }

  /** The round trip on items: the patches made from two documents, applied to a whole tree that holds
      an equal of the first, leave a whole tree, whose document compares equal to the second, with
      status zero, exactly if the keys they work on survive. The patches are left as they were. */
  method PatchTree(root: Item, patches: Item, ghost t: Shape, ghost j: Json, ghost tp: Shape, ghost from: Json,
    ghost to: Json) returns (status: int, ghost t': Shape, ghost tp': Shape, ghost r: Json)
    requires Regular(j, CI) && Regular(from, CI) && Regular(to, CI) && Compare.CompareLookup(j, from, CI)
    requires Stores(root, t, j) && Stores(patches, tp, Arr(PatchSteps.GeneratedPatches(from, to)), false)
    requires Items(t) !! Items(tp) && CStrings(j) && CStrings(Arr(PatchSteps.GeneratedPatches(from, to)))
    modifies Items(t), Items(tp)`child, Nodes(tp.kids)`next, Nodes(tp.kids)`prev
    ensures Stores(root, t', r) && Stores(patches, tp', Arr(PatchSteps.GeneratedPatches(from, to)), false)
    ensures status == 0 && Compare.CompareLookup(r, to, CI) <==> PatchRoundTrip.Survivable(from, to)
  {
    ghost var ps := PatchSteps.GeneratedPatches(from, to);
    assert Holds(tp, Arr(ps));
    hide *;
    GeneratedReady(j, tp, from, to);
    PatchRoundTrip.PatchRoundTrip(j, from, to);
    r := Patch.ApplyPatches(j, ps, CI).doc;
    status, t', tp' := ApplyAll(root, patches, CI, t, j, tp, ps);
    RanWhole(status, root, t', j, ps, CI);
  }
}
