/** The generator of patches as the library runs it: a comparison, and a patch list that grows. Every
    method is proved to compute the matching function of `Compare` or `PatchGen`. */
module Generator {
  import opened Text
  import opened Json
  import opened Sorting
  import opened Compare
  import opened Pointer
  import opened Patch
  import opened PatchGen
  import opened PatchSteps

  /** `compare_json`. */
  method CompareJson(a: Json, b: Json, cs: bool) returns (same: bool)
    ensures same == CompareSorted(a, b, cs)
    decreases a, 1
  {
    match (a, b) {
      case (Number(x), Number(y)) => same := ValueInt(x) == ValueInt(y) && CompareDouble(x, y);
      case (Str(x), Str(y)) => same := x == y;
      case (Arr(x), Arr(y)) => same := CompareElems(a, b, cs);
      case (Obj(x), Obj(y)) => same := CompareSortedMembers(a, SortList(x, cs), SortList(y, cs), cs);
      case (Invalid, Invalid) => same := true;
      case (Null, Null) => same := true;
      case (False, False) => same := true;
      case (True, True) => same := true;
      case _ => same := false;
    }
  }

  method CompareElems(a: Json, b: Json, cs: bool) returns (same: bool)
    requires a.Arr? && b.Arr?
    ensures same == CompareSorted(a, b, cs)
    decreases a, 0
  {
    var x, y, i := a.elems, b.elems, 0;
    while i < |x| && i < |y|
      invariant i <= |x| && i <= |y|
      invariant forall k :: 0 <= k < i ==> CompareSorted(x[k], y[k], cs)
    {
      var identical := CompareJson(x[i], y[i], cs);
      if !identical {
        return false;
      }
      i := i + 1;
    }
    same := i == |x| && i == |y|;
  }

  method CompareSortedMembers(ghost a: Json, x: seq<Member<Json>>, y: seq<Member<Json>>, cs: bool) returns (same: bool)
    requires a.Obj? && x == SortList(a.members, cs)
    ensures same == CompareMembers(a, x, y, cs)
    decreases a, 0
  {
    hide Fold;
    hide SortList;
    var i := 0;
    while i < |x| && i < |y|
      invariant i <= |x| && i <= |y|
      invariant forall k :: 0 <= k < i ==> SameKey(x[k].key, y[k].key, cs) && CompareSorted(x[k].value, y[k].value, cs)
    {
      if !SameKey(x[i].key, y[i].key, cs) {
        return false;
      }
      SortMembership(a.members, cs, x[i]);
      var identical := CompareJson(x[i].value, y[i].value, cs);
      if !identical {
        return false;
      }
      i := i + 1;
    }
    same := i == |x| && i == |y|;
  }

  /** The patch array under construction. */
  class PatchList {
    var items: seq<Json>

    constructor ()
      ensures items == []
    {
      items := [];
    }

    /** `compose_patch`: an operation, its path with an optional escaped last token, an optional value. */
    method Compose(code: Opcode, path: string, suffix: Option<string>, value: Option<Json>)
      modifies this
      ensures var full := if suffix.Some? then path + "/" + EncodeToken(suffix.value) else path;
        items == old(items) + [Composed(Op(code, full, value, None))]
    {
      var patch := [Member("op", Str(OpName(code)))];
      if suffix.None? {
        patch := patch + [Member("path", Str(path))];
      } else {
        patch := patch + [Member("path", Str(path + "/" + EncodeToken(suffix.value)))];
      }
      if value.Some? {
        patch := patch + [Member("value", value.value)];
      }
      assert value.Some? ==> patch == patch[..2] + [patch[2]];
      assert Obj(patch)
        == Composed(Op(code, if suffix.Some? then path + "/" + EncodeToken(suffix.value) else path, value, None));
      items := items + [Obj(patch)];
    }

    /** `create_patches`. */
    method Create(path: string, from: Json, to: Json, cs: bool)
      modifies this
      ensures items == old(items) + ComposedAll(Ops(path, from, to, cs))
      decreases from, 2
    {
      ComposedOne(ReplaceOp(path, to));
      match (from, to) {
        case (Number(x), Number(y)) =>
          if ValueInt(x) != ValueInt(y) || !CompareDouble(x, y) {
            Compose(Replace, path, None, Some(to));
          }
        case (Str(x), Str(y)) =>
          if x != y {
            Compose(Replace, path, None, Some(to));
          }
        case (Arr(x), Arr(y)) =>
          CreateElems(path, from, to, cs);
        case (Obj(x), Obj(y)) =>
          SortedMembers(from, cs);
          CreateMembers(path, from, SortList(x, cs), SortList(y, cs), cs);
        case (Invalid, Invalid) =>
        case (Null, Null) =>
        case (False, False) =>
        case (True, True) =>
        case _ =>
          Compose(Replace, path, None, Some(to));
      }
    }

    method CreateElems(path: string, from: Json, to: Json, cs: bool)
      requires from.Arr? && to.Arr?
      modifies this
      ensures items == old(items) + ComposedAll(ElemOps(path, from, to, 0, cs))
      decreases from, 0
    {
      hide Ops;
      hide Digits;
      hide ElemOps;
      hide ComposedAll;
      var x, y, index := from.elems, to.elems, 0;
      ghost var all := old(items) + ComposedAll(ElemOps(path, from, to, 0, cs));
      while index < |x| && index < |y|
        invariant index <= |x| && index <= |y|
        invariant all == items + ComposedAll(ElemOps(path, from, to, index, cs))
      {
        ElemOpsStep(path, from, to, index, cs);
        Create(path + "/" + Digits(index), x[index], y[index], cs);
        index := index + 1;
      }
      ElemOpsRest(path, from, to, index, cs);
      CreateRemovals(path, index, |x| - index);
      CreateAdditions(path, y[index..]);
    }

    method CreateRemovals(path: string, index: nat, n: nat)
      modifies this
      ensures items == old(items) + ComposedAll(Removals(path, index, n))
    {
      hide Digits;
      hide Composed;
      var left: nat := n;
      assert Removals(path, index, 0) == [];
      while left > 0
        invariant left <= n
        invariant old(items) + ComposedAll(Removals(path, index, n)) == items + ComposedAll(Removals(path, index, left))
      {
        ComposedCons(RemoveOp(path, Digits(index)), Removals(path, index, left - 1));
        Compose(Remove, path, Some(Digits(index)), None);
        left := left - 1;
      }
    }

    method CreateAdditions(path: string, vs: seq<Json>)
      modifies this
      ensures items == old(items) + ComposedAll(Additions(path, vs))
    {
      hide Composed;
      var i := 0;
      assert vs[0..] == vs;
      while i < |vs|
        invariant i <= |vs|
        invariant old(items) + ComposedAll(Additions(path, vs)) == items + ComposedAll(Additions(path, vs[i..]))
      {
        assert vs[i..][0] == vs[i] && vs[i..][1..] == vs[i + 1..];
        ComposedCons(AddOp(path, "-", vs[i]), Additions(path, vs[i + 1..]));
        Compose(Add, path, Some("-"), Some(vs[i]));
        i := i + 1;
      }
    }

    method CreateMembers(path: string, ghost from: Json, s: seq<Member<Json>>, t: seq<Member<Json>>, cs: bool)
      requires MembersOf(s, from)
      modifies this
      ensures items == old(items) + ComposedAll(MemberOps(path, from, s, t, cs))
      decreases from, 1
    {
      var i, j := 0, 0;
      assert s[0..] == s && t[0..] == t;
      hide MembersOf;
      hide KeyLess;
      while i < |s| || j < |t|
        invariant i <= |s| && j <= |t| && MembersOf(s[i..], from)
        invariant old(items) + ComposedAll(MemberOps(path, from, s, t, cs)) ==
          items + ComposedAll(MemberOps(path, from, s[i..], t[j..], cs))
        decreases |s| - i + |t| - j
      {
        i, j := CreateMember(path, from, s, t, i, j, cs);
      }
    }

    /** One round of the walk. */
    method CreateMember(path: string, ghost from: Json, s: seq<Member<Json>>, t: seq<Member<Json>>,
                        i: nat, j: nat, cs: bool) returns (i': nat, j': nat)
      requires i <= |s| && j <= |t| && (i < |s| || j < |t|) && MembersOf(s[i..], from)
      modifies this
      ensures i <= i' <= |s| && j <= j' <= |t| && i + j < i' + j' && MembersOf(s[i'..], from)
      ensures items + ComposedAll(MemberOps(path, from, s[i'..], t[j'..], cs)) ==
        old(items) + ComposedAll(MemberOps(path, from, s[i..], t[j..], cs))
      decreases from, 0
    {
      hide Ops;
      hide KeyLess;
      hide EncodeToken;
      hide Composed;
      hide ComposedAll;
      hide MembersOf;
      hide MemberOps;
      MemberOpsStep(path, from, s, t, i, j, cs);
      i', j' := i, j;
      if i == |s| || (j < |t| && KeyLess(t[j].key, s[i].key, cs)) {
        Compose(Add, path, Some(t[j].key), Some(t[j].value));
        j' := j + 1;
      } else if j == |t| || KeyLess(s[i].key, t[j].key, cs) {
        Compose(Remove, path, Some(s[i].key), None);
        i' := i + 1;
      } else {
        HeadMember(s[i..], from);
        Create(path + "/" + EncodeToken(s[i].key), s[i].value, t[j].value, cs);
        i', j' := i + 1, j + 1;
      }
    }
  }

  lemma HeadMember(x: seq<Member<Json>>, from: Json)
    requires x != [] && MembersOf(x, from)
    ensures from.Obj? && x[0] in from.members
  {
  }

  /** One round of the walk over the remaining members `s[i..]` and `t[j..]`. */
  lemma MemberOpsStep(path: string, from: Json, s: seq<Member<Json>>, t: seq<Member<Json>>, i: nat, j: nat, cs: bool)
    requires i <= |s| && j <= |t| && (i < |s| || j < |t|) && MembersOf(s[i..], from)
    ensures i < |s| ==> MembersOf(s[i + 1..], from)
    ensures ComposedAll(MemberOps(path, from, s[i..], t[j..], cs)) ==
      if i == |s| || (j < |t| && KeyLess(t[j].key, s[i].key, cs)) then
        [Composed(AddOp(path, t[j].key, t[j].value))] + ComposedAll(MemberOps(path, from, s[i..], t[j + 1..], cs))
      else if j == |t| || KeyLess(s[i].key, t[j].key, cs) then
        [Composed(RemoveOp(path, s[i].key))] + ComposedAll(MemberOps(path, from, s[i + 1..], t[j..], cs))
      else
        ComposedAll(Ops(path + "/" + EncodeToken(s[i].key), s[i].value, t[j].value, cs)) +
        ComposedAll(MemberOps(path, from, s[i + 1..], t[j + 1..], cs))
  {
    hide Ops;
    hide KeyLess;
    hide EncodeToken;
    hide Composed;
    var x, y := s[i..], t[j..];
    assert i < |s| ==> x[0] == s[i] && x[1..] == s[i + 1..];
    assert j < |t| ==> y[0] == t[j] && y[1..] == t[j + 1..];
    if i == |s| || (j < |t| && KeyLess(t[j].key, s[i].key, cs)) {
      ComposedCons(AddOp(path, t[j].key, t[j].value), MemberOps(path, from, x, y[1..], cs));
    } else if j == |t| || KeyLess(s[i].key, t[j].key, cs) {
      ComposedCons(RemoveOp(path, s[i].key), MemberOps(path, from, x[1..], y, cs));
    } else {
      ComposedConcat(
        Ops(path + "/" + EncodeToken(s[i].key), s[i].value, t[j].value, cs),
        MemberOps(path, from, x[1..], y[1..], cs));
    }
  }

  lemma ElemOpsStep(path: string, from: Json, to: Json, i: nat, cs: bool)
    requires from.Arr? && to.Arr? && i < |from.elems| && i < |to.elems|
    ensures ComposedAll(ElemOps(path, from, to, i, cs)) ==
      ComposedAll(Ops(path + "/" + Digits(i), from.elems[i], to.elems[i], cs))
      + ComposedAll(ElemOps(path, from, to, i + 1, cs))
  {
    ComposedConcat(Ops(path + "/" + Digits(i), from.elems[i], to.elems[i], cs), ElemOps(path, from, to, i + 1, cs));
  }

  lemma ElemOpsRest(path: string, from: Json, to: Json, i: nat, cs: bool)
    requires from.Arr? && to.Arr? && i <= |from.elems| && i <= |to.elems| && (i == |from.elems| || i == |to.elems|)
    ensures ComposedAll(ElemOps(path, from, to, i, cs)) ==
      ComposedAll(Removals(path, i, |from.elems| - i)) + ComposedAll(Additions(path, to.elems[i..]))
  {
    ComposedConcat(Removals(path, i, |from.elems| - i), Additions(path, to.elems[i..]));
  }

  lemma ComposedCons(op: Op, rest: seq<Op>)
    ensures ComposedAll([op] + rest) == [Composed(op)] + ComposedAll(rest)
  {
    assert ([op] + rest)[1..] == rest;
  }

  lemma ComposedOne(op: Op)
    ensures ComposedAll([op]) == [Composed(op)]
  {
    assert [op][1..] == [];
  }

  lemma {:induction false} ComposedConcat(a: seq<Op>, b: seq<Op>)
    ensures ComposedAll(a + b) == ComposedAll(a) + ComposedAll(b)
  {
    if a == [] {
      assert a + b == b;
    } else {
      assert (a + b)[1..] == a[1..] + b;
      ComposedConcat(a[1..], b);
    }
  }

  /** `cJSONUtils_GeneratePatches`. */
  method GeneratePatches(from: Json, to: Json) returns (patches: Json)
    ensures patches == Arr(GeneratedPatches(from, to))
  {
    var list := new PatchList();
    list.Create("", from, to, CI);
    patches := Arr(list.items);
  }
}
