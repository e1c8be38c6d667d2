/** No patch, whatever it says and whether it succeeds or not, makes sibling keys meet or numbers leave
    the 32-bit integers; only removing the root and growing an array without bound can spoil a document. */
module PatchSound {
  import opened Text
  import opened Json
  import opened Sorting
  import opened Compare
  import opened Arrange
  import opened Pointer
  import opened Patch
  import opened PatchGen
  import opened PatchSteps

  /** What every patch keeps: 32-bit integer numbers, and sibling keys distinct under the case rule. */
  ghost predicate Sound(j: Json, cs: bool) {
    match j
    case Number(d) => IsInt32(d)
    case Arr(es) => forall i :: 0 <= i < |es| ==> Sound(es[i], cs)
    case Obj(ms) => DistinctKeys(ms, cs) && forall i :: 0 <= i < |ms| ==> Sound(ms[i].value, cs)
    case _ => true
  }

  lemma {:induction false} RegularSound(j: Json, cs: bool)
    requires Regular(j, cs)
    ensures Sound(j, cs)
  {
    match j {
      case Arr(es) =>
        forall i | 0 <= i < |es| ensures Sound(es[i], cs) {
          RegularSound(es[i], cs);
        }
      case Obj(ms) =>
        forall i | 0 <= i < |ms| ensures Sound(ms[i].value, cs) {
          RegularSound(ms[i].value, cs);
        }
      case _ =>
    }
  }

  /** A sound document that compares equal to a regular one is regular itself. */
  lemma {:induction false} EqualRegular(a: Json, b: Json, cs: bool)
    requires Sound(a, cs) && Regular(b, cs) && CompareLookup(a, b, cs)
    ensures Regular(a, cs)
    decreases Size(a) + Size(b)
  {
    SizeChildren(a);
    SizeChildren(b);
    match (a, b) {
      case (Arr(x), Arr(y)) =>
        forall i | 0 <= i < |x| ensures Regular(x[i], cs) {
          EqualRegular(x[i], y[i], cs);
        }
      case (Obj(x), Obj(y)) =>
        forall i | 0 <= i < |x| ensures Regular(x[i].value, cs) {
          var j := FindKey(y, x[i].key, cs);
          assert j < |y| && CompareLookup(x[i].value, y[j].value, cs);
          EqualRegular(x[i].value, y[j].value, cs);
        }
      case _ =>
    }
  }

  // ---- the edits ----

  lemma SoundChild(j: Json, i: nat, cs: bool)
    requires Sound(j, cs) && i < |Children(j)|
    ensures Sound(Children(j)[i], cs)
  {
  }

  lemma SoundSetChild(j: Json, i: nat, v: Json, cs: bool)
    requires Sound(j, cs) && Sound(v, cs) && i < |Children(j)|
    ensures Sound(SetChild(j, i, v), cs)
  {
    if j.Obj? {
      DistinctWithValue(j.members, i, v, cs);
    }
  }

  lemma {:induction false} SoundAt(j: Json, path: seq<nat>, cs: bool)
    requires Sound(j, cs) && ValidPath(j, path)
    ensures Sound(At(j, path), cs)
    decreases |path|
  {
    if path == [] {
    } else {
      SoundChild(j, path[0], cs);
      SoundAt(Children(j)[path[0]], path[1..], cs);
    }
  }

  lemma {:induction false} SoundPut(j: Json, path: seq<nat>, v: Json, cs: bool)
    requires Sound(j, cs) && Sound(v, cs) && ValidPath(j, path)
    ensures Sound(Put(j, path, v), cs)
    decreases |path|
  {
    if path == [] {
    } else {
      var child := Children(j)[path[0]];
      SoundChild(j, path[0], cs);
      SoundPut(child, path[1..], v, cs);
      SoundSetChild(j, path[0], Put(child, path[1..], v), cs);
    }
  }

  lemma SoundWithout(ms: seq<Member<Json>>, i: nat, cs: bool)
    requires Sound(Obj(ms), cs) && i < |ms|
    ensures Sound(Obj(Without(ms, i)), cs)
  {
    DistinctWithout(ms, i, cs);
    forall k | 0 <= k < |Without(ms, i)| ensures Sound(Without(ms, i)[k].value, cs) {
      assert Without(ms, i)[k] == ms[if k < i then k else k + 1];
    }
  }

  lemma SoundAppend(ms: seq<Member<Json>>, m: Member<Json>, cs: bool)
    requires Sound(Obj(ms), cs) && Sound(m.value, cs) && FindKey(ms, m.key, cs) == |ms|
    ensures Sound(Obj(ms + [m]), cs)
  {
    DistinctAppend(ms, m, cs);
    forall k | 0 <= k < |ms + [m]| ensures Sound((ms + [m])[k].value, cs) {
      assert (ms + [m])[k] == if k < |ms| then ms[k] else m;
    }
  }

  lemma SoundWithoutChild(j: Json, i: nat, cs: bool)
    requires Sound(j, cs) && i < |Children(j)|
    ensures Sound(WithoutChild(j, i), cs)
  {
    if j.Obj? {
      SoundWithout(j.members, i, cs);
    }
  }

  lemma SoundAddChild(parent: Json, token: string, v: Json, cs: bool)
    requires Sound(parent, cs) && Sound(v, cs)
    ensures Sound(AddChild(parent, token, v, cs).doc, cs)
  {
    if parent.Obj? {
      var ms := parent.members;
      var i := FindKey(ms, token, cs);
      if i < |ms| {
        SoundWithout(ms, i, cs);
        FindWithout(ms, i, token, cs);
        SoundAppend(Without(ms, i), Member(token, v), cs);
      } else {
        SoundAppend(ms, Member(token, v), cs);
      }
    }
  }

  lemma SoundDetach(root: Json, path: string, cs: bool)
    requires Sound(root, cs)
    ensures var d := DetachPath(root, path, cs); d.Some? ==> Sound(d.value.0, cs) && Sound(d.value.1, cs)
  {
    hide Sound;
    hide DecodeInPlace;
    var s := LastSlash(path);
    if s >= 0 && DetachPath(root, path, cs).Some? {
      var p := GetItem(root, path[..s], cs).value;
      var i := RemovalTarget(At(root, p), DecodeInPlace(path[s + 1..])).value;
      SoundAt(root, p, cs);
      SoundChild(At(root, p), i, cs);
      SoundWithoutChild(At(root, p), i, cs);
      SoundPut(root, p, WithoutChild(At(root, p), i), cs);
    }
  }

  lemma SoundAddPath(root: Json, path: string, v: Json, cs: bool)
    requires Sound(root, cs) && Sound(v, cs)
    ensures Sound(AddPath(root, path, v, cs).doc, cs)
  {
    hide Sound;
    hide AddChild;
    hide DecodeInPlace;
    var s := LastSlash(path);
    if s >= 0 && GetItem(root, path[..s], cs).Some? {
      var p, token := GetItem(root, path[..s], cs).value, DecodeInPlace(path[s + 1..]);
      SoundAt(root, p, cs);
      SoundAddChild(At(root, p), token, v, cs);
      SoundPut(root, p, AddChild(At(root, p), token, v, cs).doc, cs);
    }
  }

  // ---- what a comparison leaves ----

  ghost predicate SoundValues(ms: seq<Member<Json>>, cs: bool) {
    forall i :: 0 <= i < |ms| ==> Sound(ms[i].value, cs)
  }

  /** The same members in the same order, with equal and sound values. */
  ghost predicate Like(x: seq<Member<Json>>, l: seq<Member<Json>>, cs: bool) {
    |x| == |l| && (x == [] || (
      && x[0].key == l[0].key && Abs(x[0].value, cs) == Abs(l[0].value, cs) && Sound(l[0].value, cs)
      && Like(x[1..], l[1..], cs)))
  }

  lemma {:induction false} LikeFind(x: seq<Member<Json>>, l: seq<Member<Json>>, k: string, cs: bool)
    requires Like(x, l, cs)
    ensures FindKey(l, k, cs) == FindKey(x, k, cs)
  {
    hide Sound;
    hide Abs;
    if x == [] {
    } else {
      LikeFind(x[1..], l[1..], k, cs);
    }
  }

  lemma {:induction false} LikeSound(x: seq<Member<Json>>, l: seq<Member<Json>>, cs: bool)
    requires Like(x, l, cs) && DistinctKeys(x, cs)
    ensures DistinctKeys(l, cs) && AbsMembers(l, cs) == AbsMembers(x, cs)
    ensures forall i :: 0 <= i < |l| ==> Sound(l[i].value, cs)
  {
    hide Sound;
    hide Abs;
    hide Fold;
    if x == [] {
    } else {
      LikeSound(x[1..], l[1..], cs);
      LikeFind(x[1..], l[1..], x[0].key, cs);
      assert forall i :: 0 < i < |l| ==> l[i] == l[1..][i - 1];
    }
  }

  lemma {:induction false} LikeItself(x: seq<Member<Json>>, cs: bool)
    requires forall i :: 0 <= i < |x| ==> Sound(x[i].value, cs)
    ensures Like(x, x, cs)
  {
    hide Sound;
    if x == [] {
    } else {
      LikeItself(x[1..], cs);
    }
  }

  /** Both documents stay sound and equal to what they were. */
  lemma {:induction false} SoundCompared(a: Json, b: Json, cs: bool)
    requires Sound(a, cs) && Sound(b, cs)
    ensures var c := CompareTwo(a, b, cs);
      && Sound(c.left, cs) && Abs(c.left, cs) == Abs(a, cs)
      && Sound(c.right, cs) && Abs(c.right, cs) == Abs(b, cs)
    decreases a, 1
  {
    match (a, b) {
      case (Arr(x), Arr(y)) =>
        ElemsCompared(a, x, y, cs);
        var w := WalkElems(a, x, y, cs);
        LikeElemsSound(x, w.left, cs);
        LikeElemsSound(y, w.right, cs);
        ElemsEqual(w.left, x, cs);
        ElemsEqual(w.right, y, cs);
      case (Obj(x), Obj(y)) =>
        ObjectsCompared(a, b, cs);
      case _ =>
    }
  }

  lemma {:induction false} ObjectsCompared(a: Json, b: Json, cs: bool)
    requires a.Obj? && b.Obj? && Sound(a, cs) && Sound(b, cs)
    ensures var c := CompareTwo(a, b, cs);
      && Sound(c.left, cs) && Abs(c.left, cs) == Abs(a, cs)
      && Sound(c.right, cs) && Abs(c.right, cs) == Abs(b, cs)
    decreases a, 0
  {
    var x, y := a.members, b.members;
    var s, t := SortList(x, cs), SortList(y, cs);
    SortedKept(a, cs);
    SortSound(x, cs);
    SortSound(y, cs);
    MembersCompared(a, s, t, cs);
    var w := WalkMembers(a, s, t, cs);
    LikeSound(s, w.left, cs);
    LikeSound(t, w.right, cs);
    hide SortList;
    ObjectsEqual(w.left, x, cs);
    ObjectsEqual(w.right, y, cs);
  }

  lemma SortSound(x: seq<Member<Json>>, cs: bool)
    requires Sound(Obj(x), cs)
    ensures var s := SortList(x, cs);
      && DistinctKeys(s, cs) && AbsMembers(s, cs) == AbsMembers(x, cs)
      && forall i :: 0 <= i < |s| ==> Sound(s[i].value, cs)
  {
    SortDistinct(x, cs);
    var s := SortList(x, cs);
    forall i | 0 <= i < |s| ensures Sound(s[i].value, cs) {
      SortMembership(x, cs, s[i]);
    }
  }

  /** Equal and sound elements. */
  ghost predicate LikeElems(x: seq<Json>, l: seq<Json>, cs: bool) {
    |x| == |l| && (x == [] || (Abs(x[0], cs) == Abs(l[0], cs) && Sound(l[0], cs) && LikeElems(x[1..], l[1..], cs)))
  }

  lemma {:induction false} LikeElemsSound(x: seq<Json>, l: seq<Json>, cs: bool)
    requires LikeElems(x, l, cs)
    ensures Sound(Arr(l), cs) && forall i :: 0 <= i < |x| ==> Abs(l[i], cs) == Abs(x[i], cs)
  {
    if x == [] {
    } else {
      LikeElemsSound(x[1..], l[1..], cs);
      hide Abs;
      forall i | 0 <= i < |l| ensures Sound(l[i], cs) && Abs(l[i], cs) == Abs(x[i], cs) {
        assert i > 0 ==> l[i] == l[1..][i - 1] && x[i] == x[1..][i - 1];
      }
    }
  }

  lemma {:induction false} LikeElemsItself(x: seq<Json>, cs: bool)
    requires Sound(Arr(x), cs)
    ensures LikeElems(x, x, cs)
  {
    if x == [] {
    } else {
      LikeElemsItself(x[1..], cs);
    }
  }

  lemma {:induction false} ElemsCompared(a: Json, x: seq<Json>, y: seq<Json>, cs: bool)
    requires a.Arr? && forall e :: e in x ==> e in a.elems
    requires Sound(Arr(x), cs) && Sound(Arr(y), cs)
    ensures var w := WalkElems(a, x, y, cs); LikeElems(x, w.left, cs) && LikeElems(y, w.right, cs)
    decreases a, 0, |x|
  {
    LikeElemsItself(x, cs);
    LikeElemsItself(y, cs);
    if x == [] || y == [] {
    } else {
      assert x[0] in a.elems;
      SoundCompared(x[0], y[0], cs);
      ElemsCompared(a, x[1..], y[1..], cs);
      hide CompareTwo;
      hide Abs;
      hide Sound;
    }
  }

  lemma {:induction false} MembersCompared(a: Json, x: seq<Member<Json>>, y: seq<Member<Json>>, cs: bool)
    requires a.Obj? && forall m :: m in x ==> m in a.members
    requires SoundValues(x, cs) && SoundValues(y, cs)
    ensures var w := WalkMembers(a, x, y, cs); Like(x, w.left, cs) && Like(y, w.right, cs)
    decreases a, 0, |x|
  {
    LikeItself(x, cs);
    LikeItself(y, cs);
    hide SameKey;
    if x == [] || y == [] {
    } else {
      assert x[0] in a.members;
      SoundCompared(x[0].value, y[0].value, cs);
      MembersCompared(a, x[1..], y[1..], cs);
      hide CompareTwo;
      hide Abs;
      hide Sound;
    }
  }

  // ---- whole operations and patches ----

  ghost predicate SoundOp(op: Op, cs: bool) {
    op.value.Some? ==> Sound(op.value.value, cs)
  }

  lemma SoundMove(root: Json, from: string, path: string, cs: bool)
    requires Sound(root, cs)
    ensures var d := DetachPath(root, from, cs); d.Some? ==> Sound(AddPath(d.value.1, path, d.value.0, cs).doc, cs)
  {
    hide Sound;
    hide AddPath;
    hide DetachPath;
    SoundDetach(root, from, cs);
    var d := DetachPath(root, from, cs);
    if d.Some? {
      SoundAddPath(d.value.1, path, d.value.0, cs);
    }
  }

  lemma SoundReplace(root: Json, path: string, v: Json, cs: bool)
    requires Sound(root, cs) && Sound(v, cs)
    ensures var d := DetachPath(root, path, cs); d.Some? ==> Sound(AddPath(d.value.1, path, v, cs).doc, cs)
  {
    hide Sound;
    hide AddPath;
    hide DetachPath;
    SoundDetach(root, path, cs);
    var d := DetachPath(root, path, cs);
    if d.Some? {
      SoundAddPath(d.value.1, path, v, cs);
    }
  }

  lemma SoundCopy(root: Json, from: string, path: string, cs: bool)
    requires Sound(root, cs)
    ensures var p := GetItem(root, from, cs); p.Some? ==> Sound(AddPath(root, path, At(root, p.value), cs).doc, cs)
  {
    hide Sound;
    hide AddPath;
    var p := GetItem(root, from, cs);
    if p.Some? {
      SoundAt(root, p.value, cs);
      SoundAddPath(root, path, At(root, p.value), cs);
    }
  }

  lemma SoundTest(root: Json, path: string, v: Json, cs: bool)
    requires Sound(root, cs) && Sound(v, cs)
    ensures var p := GetItem(root, path, cs);
      p.Some? ==> Sound(Put(root, p.value, CompareTwo(At(root, p.value), v, cs).left), cs)
  {
    hide Sound;
    hide CompareTwo;
    var p := GetItem(root, path, cs);
    if p.Some? {
      SoundAt(root, p.value, cs);
      SoundCompared(At(root, p.value), v, cs);
      SoundPut(root, p.value, CompareTwo(At(root, p.value), v, cs).left, cs);
    }
  }

  lemma SoundAfterOp(root: Json, op: Op, cs: bool)
    requires Sound(root, cs) && SoundOp(op, cs)
    ensures Sound(ApplyOp(root, op, cs).doc, cs)
  {
    assert Sound(Invalid, cs);
    hide Sound;
    hide AddPath;
    hide DetachPath;
    hide GetItem;
    match op.code {
      case Remove =>
        SoundDetach(root, op.path, cs);
      case Replace =>
        SoundDetach(root, op.path, cs);
        if op.value.Some? {
          SoundReplace(root, op.path, op.value.value, cs);
        }
      case Add =>
        if op.value.Some? {
          SoundAddPath(root, op.path, op.value.value, cs);
        }
      case Move =>
        if op.from.Some? && op.from.value.Str? {
          SoundMove(root, op.from.value.s, op.path, cs);
        }
      case Copy =>
        if op.from.Some? && op.from.value.Str? {
          SoundCopy(root, op.from.value.s, op.path, cs);
        }
      case Test =>
        if op.value.Some? {
          SoundTest(root, op.path, op.value.value, cs);
        }
    }
  }

  /** One patch, decoded or refused. */
  lemma SoundAfterPatch(root: Json, patch: Json, cs: bool)
    requires Sound(root, cs) && Sound(patch, cs)
    ensures Sound(ApplyPatch(root, patch, cs).doc, cs)
  {
    hide ApplyOp;
    if DecodeOpcode(patch, cs).Some? && Lookup(patch, "path", cs).Some? && Lookup(patch, "path", cs).value.Str? {
      var op := Op(DecodeOpcode(patch, cs).value, Lookup(patch, "path", cs).value.s,
        Lookup(patch, "value", cs), Lookup(patch, "from", cs));
      SoundAfterOp(root, op, cs);
    }
  }

  /** A list of patches keeps a document sound, even if one fails. */
  lemma {:induction false} SoundAfterPatches(root: Json, patches: seq<Json>, cs: bool)
    requires Sound(root, cs) && Sound(Arr(patches), cs)
    ensures Sound(ApplyPatches(root, patches, cs).doc, cs)
    decreases |patches|
  {
    hide ApplyPatch;
    if patches == [] {
    } else {
      SoundAfterPatch(root, patches[0], cs);
      SoundAfterPatches(ApplyPatch(root, patches[0], cs).doc, patches[1..], cs);
    }
  }

  // ---- generated patches ----

  /** The patches generated for a sound target are sound. */
  lemma {:induction false} SoundComposed(ops: seq<Op>, cs: bool)
    requires SoundOps(ops, cs)
    ensures Sound(Arr(ComposedAll(ops)), cs)
  {
    if ops == [] {
    } else {
      SoundComposed(ops[1..], cs);
      ComposedSound(ops[0], cs);
      hide Composed;
      var all, rest := ComposedAll(ops), ComposedAll(ops[1..]);
      forall i | 0 <= i < |all| ensures Sound(all[i], cs) {
        assert all[i] == if i == 0 then Composed(ops[0]) else rest[i - 1];
      }
    }
  }

  lemma ComposedSound(op: Op, cs: bool)
    requires SoundOp(op, cs)
    ensures Sound(Composed(op), cs)
  {
    PatchSteps.PatchKeys(cs);
    hide Fold;
    var ms := Composed(op).members;
    var t, u := ms[1..], ms[2..];
    assert t == [ms[1]] + u && t[1..] == u;
    assert u == if op.value.Some? then [Member("value", op.value.value)] else [];
    assert u != [] ==> u[1..] == [];
    assert DistinctKeys(u, cs) && DistinctKeys(t, cs);
  }

  ghost predicate SoundOps(ops: seq<Op>, cs: bool) {
    forall k :: 0 <= k < |ops| ==> SoundOp(ops[k], cs)
  }

  lemma {:induction false} OpsSound(path: string, from: Json, to: Json, cs: bool)
    requires Sound(to, cs)
    ensures SoundOps(Ops(path, from, to, cs), cs)
    decreases from, 1
  {
    match (from, to) {
      case (Arr(x), Arr(y)) =>
        ElemsSound(path, from, to, 0, cs);
      case (Obj(x), Obj(y)) =>
        SortedMembers(from, cs);
        forall i | 0 <= i < |y| ensures Sound(SortList(y, cs)[i].value, cs) {
          SortMembership(y, cs, SortList(y, cs)[i]);
        }
        MembersSound(path, from, SortList(x, cs), SortList(y, cs), cs);
      case _ =>
    }
  }

  lemma {:induction false} RestSound(path: string, i: nat, n: nat, vs: seq<Json>, cs: bool)
    requires Sound(Arr(vs), cs)
    ensures SoundOps(Removals(path, i, n), cs) && SoundOps(Additions(path, vs), cs)
    decreases n, |vs|
  {
    if n > 0 {
      RestSound(path, i, n - 1, vs, cs);
    }
    if vs == [] {
    } else {
      RestSound(path, i, n, vs[1..], cs);
    }
  }

  lemma {:induction false} ElemsSound(path: string, from: Json, to: Json, i: nat, cs: bool)
    requires from.Arr? && to.Arr? && i <= |from.elems| && i <= |to.elems| && Sound(to, cs)
    ensures SoundOps(ElemOps(path, from, to, i, cs), cs)
    decreases from, 0, |to.elems| - i
  {
    if i < |from.elems| && i < |to.elems| {
      OpsSound(path + "/" + Digits(i), from.elems[i], to.elems[i], cs);
      ElemsSound(path, from, to, i + 1, cs);
    } else {
      RestSound(path, i, |from.elems| - i, to.elems[i..], cs);
    }
  }

  lemma {:induction false} MembersSound(path: string, from: Json, x: seq<Member<Json>>, y: seq<Member<Json>>, cs: bool)
    requires MembersOf(x, from) && SoundValues(y, cs)
    ensures SoundOps(MemberOps(path, from, x, y, cs), cs)
    decreases from, 0, |x| + |y|
  {
    hide KeyLess;
    hide EncodeToken;
    hide Sound;
    if x == [] && y == [] {
    } else if x == [] || (y != [] && KeyLess(y[0].key, x[0].key, cs)) {
      MembersSound(path, from, x, y[1..], cs);
    } else if y == [] || KeyLess(x[0].key, y[0].key, cs) {
      MembersSound(path, from, x[1..], y, cs);
    } else {
      assert x[0] in from.members;
      OpsSound(path + "/" + EncodeToken(x[0].key), x[0].value, y[0].value, cs);
      MembersSound(path, from, x[1..], y[1..], cs);
    }
  }
}
