/** No patch puts a terminator inside a key or a string: C strings stay C strings. */
module PatchStrings {
  import opened Text
  import opened Json
  import opened Sorting
  import opened Arrange
  import opened Pointer
  import opened Patch

  // ---- the edits ----

  lemma StringsChild(j: Json, i: nat)
    requires CStrings(j) && i < |Children(j)|
    ensures CStrings(Children(j)[i])
  {
  }

  lemma StringsSetChild(j: Json, i: nat, v: Json)
    requires CStrings(j) && CStrings(v) && i < |Children(j)|
    ensures CStrings(SetChild(j, i, v))
  {
  }

  lemma {:induction false} StringsAt(j: Json, path: seq<nat>)
    requires CStrings(j) && ValidPath(j, path)
    ensures CStrings(At(j, path))
    decreases |path|
  {
    if path == [] {
    } else {
      StringsChild(j, path[0]);
      StringsAt(Children(j)[path[0]], path[1..]);
    }
  }

  lemma {:induction false} StringsPut(j: Json, path: seq<nat>, v: Json)
    requires CStrings(j) && CStrings(v) && ValidPath(j, path)
    ensures CStrings(Put(j, path, v))
    decreases |path|
  {
    if path == [] {
    } else {
      var child := Children(j)[path[0]];
      StringsChild(j, path[0]);
      StringsPut(child, path[1..], v);
      StringsSetChild(j, path[0], Put(child, path[1..], v));
    }
  }

  lemma StringsWithoutChild(j: Json, i: nat)
    requires CStrings(j) && i < |Children(j)|
    ensures CStrings(WithoutChild(j, i))
  {
  }

  lemma StringsAddChild(parent: Json, token: string, v: Json, cs: bool)
    requires CStrings(parent) && CStrings(v) && NulFree(token)
    ensures CStrings(AddChild(parent, token, v, cs).doc)
  {
    hide FindKey;
    hide DecodeIndex;
  }

  lemma {:induction false} DecodedNulFree(buffer: string, d: nat, r: nat)
    requires d <= r <= |buffer| && NulFree(buffer)
    ensures NulFree(DecodeFrom(buffer, d, r))
    decreases |buffer| - r
  {
    if r == |buffer| {
    } else if buffer[r] != '~' {
      DecodedNulFree(buffer, d + 1, r + 1);
    } else if r + 1 < |buffer| && buffer[r + 1] == '0' {
      DecodedNulFree(buffer[d := '~'], d + 1, r + 2);
    } else if r + 1 < |buffer| && buffer[r + 1] == '1' {
      DecodedNulFree(buffer[d + 1 := '/'], d + 1, r + 2);
    }
  }

  lemma StringsDetach(root: Json, path: string, cs: bool)
    requires CStrings(root)
    ensures var d := DetachPath(root, path, cs); d.Some? ==> CStrings(d.value.0) && CStrings(d.value.1)
  {
    hide CStrings;
    hide DecodeInPlace;
    var s := LastSlash(path);
    if s >= 0 && DetachPath(root, path, cs).Some? {
      var p := GetItem(root, path[..s], cs).value;
      var i := RemovalTarget(At(root, p), DecodeInPlace(path[s + 1..])).value;
      StringsAt(root, p);
      StringsChild(At(root, p), i);
      StringsWithoutChild(At(root, p), i);
      StringsPut(root, p, WithoutChild(At(root, p), i));
    }
  }

  lemma StringsAddPath(root: Json, path: string, v: Json, cs: bool)
    requires CStrings(root) && CStrings(v) && NulFree(path)
    ensures CStrings(AddPath(root, path, v, cs).doc)
  {
    hide CStrings;
    hide AddChild;
    hide DecodeFrom;
    var s := LastSlash(path);
    if s >= 0 && GetItem(root, path[..s], cs).Some? {
      var p, token := GetItem(root, path[..s], cs).value, DecodeInPlace(path[s + 1..]);
      DecodedNulFree(path[s + 1..], 0, 0);
      StringsAt(root, p);
      StringsAddChild(At(root, p), token, v, cs);
      StringsPut(root, p, AddChild(At(root, p), token, v, cs).doc);
    }
  }

  // ---- what a comparison leaves ----

  ghost predicate StringsOf(es: seq<Json>) {
    forall i :: 0 <= i < |es| ==> CStrings(es[i])
  }

  ghost predicate StringsIn(ms: seq<Member<Json>>) {
    forall i :: 0 <= i < |ms| ==> NulFree(ms[i].key) && CStrings(ms[i].value)
  }

  lemma {:induction false} StringsCompared(a: Json, b: Json, cs: bool)
    requires CStrings(a) && CStrings(b)
    ensures var c := CompareTwo(a, b, cs); CStrings(c.left) && CStrings(c.right)
    decreases a, 1
  {
    match (a, b) {
      case (Arr(x), Arr(y)) =>
        StringsElems(a, x, y, cs);
      case (Obj(x), Obj(y)) =>
        SortedKept(a, cs);
        StringsSorted(x, cs);
        StringsSorted(y, cs);
        StringsMembers(a, SortList(x, cs), SortList(y, cs), cs);
        hide SortList;
      case _ =>
    }
  }

  lemma StringsSorted(x: seq<Member<Json>>, cs: bool)
    requires StringsIn(x)
    ensures StringsIn(SortList(x, cs))
  {
    hide CStrings;
    hide SortList;
    var s := SortList(x, cs);
    forall i | 0 <= i < |s| ensures NulFree(s[i].key) && CStrings(s[i].value) {
      SortMembership(x, cs, s[i]);
    }
  }

  lemma {:induction false} StringsElems(a: Json, x: seq<Json>, y: seq<Json>, cs: bool)
    requires a.Arr? && forall e :: e in x ==> e in a.elems
    requires StringsOf(x) && StringsOf(y)
    ensures var w := WalkElems(a, x, y, cs); StringsOf(w.left) && StringsOf(w.right)
    decreases a, 0, |x|
  {
    hide CStrings;
    if x == [] || y == [] {
    } else {
      assert x[0] in a.elems;
      StringsCompared(x[0], y[0], cs);
      StringsElems(a, x[1..], y[1..], cs);
      hide CompareTwo;
    }
  }

  lemma {:induction false} StringsMembers(a: Json, x: seq<Member<Json>>, y: seq<Member<Json>>, cs: bool)
    requires a.Obj? && forall m :: m in x ==> m in a.members
    requires StringsIn(x) && StringsIn(y)
    ensures var w := WalkMembers(a, x, y, cs); StringsIn(w.left) && StringsIn(w.right)
    decreases a, 0, |x|
  {
    hide SameKey;
    hide CStrings;
    if x == [] || y == [] {
    } else {
      assert x[0] in a.members;
      StringsCompared(x[0].value, y[0].value, cs);
      StringsMembers(a, x[1..], y[1..], cs);
      hide CompareTwo;
    }
  }

  // ---- whole operations and patches ----

  lemma StringsTest(root: Json, path: string, v: Json, cs: bool)
    requires CStrings(root) && CStrings(v)
    ensures var p := GetItem(root, path, cs);
      p.Some? ==> CStrings(Put(root, p.value, CompareTwo(At(root, p.value), v, cs).left))
  {
    hide CStrings;
    hide CompareTwo;
    var p := GetItem(root, path, cs);
    if p.Some? {
      StringsAt(root, p.value);
      StringsCompared(At(root, p.value), v, cs);
      StringsPut(root, p.value, CompareTwo(At(root, p.value), v, cs).left);
    }
  }

  /** `move`, `copy` and `replace`: what is found, or taken out, goes to the path. */
  lemma StringsFrom(root: Json, from: string, path: string, cs: bool)
    requires CStrings(root) && NulFree(path)
    ensures var d := DetachPath(root, from, cs); d.Some? ==> CStrings(AddPath(d.value.1, path, d.value.0, cs).doc)
    ensures var p := GetItem(root, from, cs); p.Some? ==> CStrings(AddPath(root, path, At(root, p.value), cs).doc)
  {
    hide CStrings;
    hide AddPath;
    hide DetachPath;
    StringsDetach(root, from, cs);
    var d, p := DetachPath(root, from, cs), GetItem(root, from, cs);
    if d.Some? {
      StringsAddPath(d.value.1, path, d.value.0, cs);
    }
    if p.Some? {
      StringsAt(root, p.value);
      StringsAddPath(root, path, At(root, p.value), cs);
    }
  }

  lemma StringsReplace(root: Json, path: string, v: Json, cs: bool)
    requires CStrings(root) && CStrings(v) && NulFree(path)
    ensures var d := DetachPath(root, path, cs); d.Some? ==> CStrings(AddPath(d.value.1, path, v, cs).doc)
  {
    hide CStrings;
    hide AddPath;
    hide DetachPath;
    StringsDetach(root, path, cs);
    var d := DetachPath(root, path, cs);
    if d.Some? {
      StringsAddPath(d.value.1, path, v, cs);
    }
  }

  lemma StringsAfterOp(root: Json, op: Op, cs: bool)
    requires CStrings(root) && NulFree(op.path) && (op.value.Some? ==> CStrings(op.value.value))
    ensures CStrings(ApplyOp(root, op, cs).doc)
  {
    assert CStrings(Invalid);
    hide CStrings;
    hide AddPath;
    hide DetachPath;
    hide GetItem;
    match op.code {
      case Remove =>
        StringsDetach(root, op.path, cs);
      case Replace =>
        StringsDetach(root, op.path, cs);
        if op.value.Some? {
          StringsReplace(root, op.path, op.value.value, cs);
        }
      case Add =>
        if op.value.Some? {
          StringsAddPath(root, op.path, op.value.value, cs);
        }
      case Move =>
        if op.from.Some? && op.from.value.Str? {
          StringsFrom(root, op.from.value.s, op.path, cs);
        }
      case Copy =>
        if op.from.Some? && op.from.value.Str? {
          StringsFrom(root, op.from.value.s, op.path, cs);
        }
      case Test =>
        if op.value.Some? {
          StringsTest(root, op.path, op.value.value, cs);
        }
    }
  }

  /** One patch, decoded or refused. */
  lemma StringsAfterPatch(root: Json, patch: Json, cs: bool)
    requires CStrings(root) && CStrings(patch)
    ensures CStrings(ApplyPatch(root, patch, cs).doc)
  {
    hide ApplyOp;
    if DecodeOpcode(patch, cs).Some? && Lookup(patch, "path", cs).Some? && Lookup(patch, "path", cs).value.Str? {
      var op := Op(DecodeOpcode(patch, cs).value, Lookup(patch, "path", cs).value.s,
        Lookup(patch, "value", cs), Lookup(patch, "from", cs));
      StringsAfterOp(root, op, cs);
    }
  }
}
