/** When removing what was just added gives back the original document. */
module PatchInverse {
  import opened Text
  import opened Json
  import opened Pointer
  import opened Patch

  // ---- an edit at a position keeps the pointers to it ----

  lemma {:induction false} FindTokenWithValue(ms: seq<Member<Json>>, i: nat, v: Json, token: string, cs: bool)
    requires i < |ms|
    ensures FindToken(WithValue(ms, i, v), token, cs) == FindToken(ms, token, cs)
  {
    if i == 0 {
      assert WithValue(ms, i, v)[1..] == ms[1..];
    } else {
      WithValueStep(ms, i, v);
      FindTokenWithValue(ms[1..], i - 1, v, token, cs);
    }
  }

  lemma StepSetChild(j: Json, i: nat, v: Json, token: string, cs: bool)
    requires i < |Children(j)|
    ensures Step(SetChild(j, i, v), token, cs) == Step(j, token, cs)
  {
    if j.Obj? {
      FindTokenWithValue(j.members, i, v, token, cs);
    }
  }

  /** The item at `path` after it has been replaced, and the document after it is put back. */
  lemma {:induction false} PutAt(j: Json, path: seq<nat>, u: Json, v: Json)
    requires ValidPath(j, path)
    ensures ValidPath(Put(j, path, u), path) && At(Put(j, path, u), path) == u
    ensures Put(Put(j, path, u), path, v) == Put(j, path, v)
    ensures Put(j, path, At(j, path)) == j
    decreases |path|
  {
    if path == [] {
    } else {
      var i, child := path[0], Children(j)[path[0]];
      PutAt(child, path[1..], u, v);
      SetChildTwice(j, i, Put(child, path[1..], u), Put(child, path[1..], v));
      SetChildSame(j, i);
    }
  }

  lemma {:induction false} GetItemPut(j: Json, pointer: string, cs: bool, v: Json)
    requires GetItem(j, pointer, cs).Some?
    ensures var p := GetItem(j, pointer, cs); GetItem(Put(j, p.value, v), pointer, cs) == p
    decreases |pointer|
  {
    if pointer == "" || pointer[0] != '/' {
    } else {
      var token := pointer[1..];
      var i := Step(j, token, cs).value;
      var child := Children(j)[i];
      var q := GetItem(child, SkipToken(token), cs).value;
      assert GetItem(j, pointer, cs).value == [i] + q && ([i] + q)[1..] == q;
      GetItemPut(child, SkipToken(token), cs, v);
      StepSetChild(j, i, Put(child, q, v), token, cs);
    }
  }

  // ---- adding and removing ----

  /** Where an addition can be undone: a position of an array, or a key new to an object even when
      case is ignored. */
  predicate AddsFresh(parent: Json, token: string) {
    match parent
    case Arr(es) => var i := DecodeIndex(token); i.Some? && i.value <= |es|
    case Obj(ms) => FindKey(ms, token, false) == |ms|
    case _ => false
  }

  lemma FoldedDistinct(a: string, b: string)
    ensures SameKey(a, b, true) ==> SameKey(a, b, false)
  {
  }

  lemma {:induction false} FindIgnoringCase(ms: seq<Member<Json>>, k: string, cs: bool)
    ensures FindKey(ms, k, false) <= FindKey(ms, k, cs)
  {
    if ms == [] {
    } else {
      FoldedDistinct(ms[0].key, k);
      FindIgnoringCase(ms[1..], k, cs);
    }
  }

  /** On the parent alone: the addition succeeds, and taking the item back out restores the parent,
      exactly in the cases of `AddsFresh`. */
  lemma ChildInverse(parent: Json, token: string, v: Json, cs: bool)
    ensures var a := AddChild(parent, token, v, cs);
      var t := RemovalTarget(a.doc, token);
      (a.status == 0 && t.Some? && WithoutChild(a.doc, t.value) == parent) <==> AddsFresh(parent, token)
    ensures AddsFresh(parent, token) ==>
      var a := AddChild(parent, token, v, cs); Children(a.doc)[RemovalTarget(a.doc, token).value] == v
  {
    hide FindKey;
    match parent {
      case Arr(es) =>
        if token == "-" {
          assert DecodeIndex(token) == None;
        } else if AddsFresh(parent, token) {
          var i := DecodeIndex(token).value;
          var w := es[..i] + [v] + es[i..];
          assert w[i] == v && Without(w, i) == es;
        }
      case Obj(ms) =>
        ObjectInverse(ms, token, v, cs);
      case _ =>
    }
  }

  lemma ObjectInverse(ms: seq<Member<Json>>, token: string, v: Json, cs: bool)
    ensures var i := FindKey(ms, token, cs);
      var w := (if i < |ms| then Without(ms, i) else ms) + [Member(token, v)];
      var t := FindKey(w, token, false);
      && t < |w|
      && (Without(w, t) == ms <==> FindKey(ms, token, false) == |ms|)
      && (FindKey(ms, token, false) == |ms| ==> w[t] == Member(token, v))
  {
    var i := FindKey(ms, token, cs);
    var rest := if i < |ms| then Without(ms, i) else ms;
    var w := rest + [Member(token, v)];
    FindAppend(rest, Member(token, v), token, false);
    FindIgnoringCase(ms, token, cs);
    var t := FindKey(w, token, false);
    if i < |ms| {
      assert |Without(w, t)| == |ms| - 1;
    } else if FindKey(ms, token, false) == |ms| {
      assert Without(w, t) == ms;
    } else {
      // some key differs from the token in case only: that member goes instead of the new one
      FindExact(ms, token, cs);
      assert Without(w, t)[|ms| - 1] == w[|ms|] == Member(token, v);
    }
  }

  /** A key not found under the case rule is not there letter for letter either. */
  lemma {:induction false} FindExact(ms: seq<Member<Json>>, k: string, cs: bool)
    requires FindKey(ms, k, cs) == |ms|
    ensures ms != [] ==> ms[|ms| - 1].key != k
  {
    if |ms| > 0 && ms[|ms| - 1].key == k {
      FindFirst(ms, k, cs, |ms| - 1);
    }
  }

  lemma InverseAt(root: Json, pointer: string, token: string, v: Json, cs: bool)
    requires GetItem(root, pointer, cs).Some?
    ensures var parent, a := At(root, GetItem(root, pointer, cs).value), AddAt(root, pointer, token, v, cs);
      var d := DetachAt(a.doc, pointer, token, cs);
      (a.status == 0 && d.Some? && d.value.1 == root) <==> AddsFresh(parent, token)
  {
    var p := GetItem(root, pointer, cs).value;
    var parent := At(root, p);
    var a := AddChild(parent, token, v, cs);
    ChildInverse(parent, token, v, cs);
    hide WithoutChild;
    hide RemovalTarget;
    hide AddsFresh;
    hide AddChild;
    if a.status == 0 {
      GetItemPut(root, pointer, cs, a.doc);
      hide Put;
      hide GetItem;
      PutAt(root, p, a.doc, parent);
      var t := RemovalTarget(a.doc, token);
      if t.Some? {
        PutAt(root, p, a.doc, WithoutChild(a.doc, t.value));
        PutInjective(root, p, WithoutChild(a.doc, t.value), parent);
      }
    }
  }

  /** Where an addition can be undone by a removal: the parent exists and gets a fresh child. At the
      root, where the document itself is replaced, only an invalid document comes back. */
  predicate Restorable(root: Json, path: string, cs: bool) {
    var s := LastSlash(path);
    if path == "" then root.Invalid?
    else
      s >= 0 &&
      var p := GetItem(root, path[..s], cs);
      p.Some? && AddsFresh(At(root, p.value), DecodeInPlace(path[s + 1..]))
  }

  /** A patch that adds at `path` and one that removes at the same path. */
  lemma RemoveUndoesAdd(root: Json, path: string, v: Json, cs: bool)
    ensures var a := ApplyOp(root, Op(Add, path, Some(v), None), cs);
      var r := ApplyOp(a.doc, Op(Remove, path, None, None), cs);
      (a.status == 0 && r == Outcome(0, root)) <==> Restorable(root, path, cs)
  {
    var s := LastSlash(path);
    if path != "" && s >= 0 && GetItem(root, path[..s], cs).Some? {
      InverseAt(root, path[..s], DecodeInPlace(path[s + 1..]), v, cs);
    }
    hide DecodeInPlace;
    hide LastSlash;
    hide DetachAt;
    hide GetItem;
    hide AddsFresh;
    hide AddChild;
    hide At;
  }

  lemma PutInjective(j: Json, path: seq<nat>, u: Json, v: Json)
    requires ValidPath(j, path)
    ensures Put(j, path, u) == Put(j, path, v) ==> u == v
  {
    PutAt(j, path, u, v);
    PutAt(j, path, v, u);
  }
}
