/** Generating a JSON Patch that turns one document into another. */
module PatchGen {
  import opened Text
  import opened Json
  import opened Sorting
  import opened Compare
  import opened Pointer
  import opened Patch

  function RemoveOp(path: string, token: string): Op {
    Op(Remove, path + "/" + EncodeToken(token), None, None)
  }

  function AddOp(path: string, token: string, v: Json): Op {
    Op(Add, path + "/" + EncodeToken(token), Some(v), None)
  }

  function ReplaceOp(path: string, v: Json): Op {
    Op(Replace, path, Some(v), None)
  }

  /** The operations `create_patches` emits, in order. */
  function Ops(path: string, from: Json, to: Json, cs: bool): seq<Op>
    decreases from, 1
  {
    match (from, to)
    case (Number(x), Number(y)) =>
      if ValueInt(x) != ValueInt(y) || !CompareDouble(x, y) then [ReplaceOp(path, to)] else []
    case (Str(x), Str(y)) => if x != y then [ReplaceOp(path, to)] else []
    case (Arr(x), Arr(y)) => ElemOps(path, from, to, 0, cs)
    case (Obj(x), Obj(y)) =>
      SortedMembers(from, cs);
      MemberOps(path, from, SortList(x, cs), SortList(y, cs), cs)
    case (Invalid, Invalid) => []
    case (Null, Null) => []
    case (False, False) => []
    case (True, True) => []
    case _ => [ReplaceOp(path, to)]
  }

  /** The item itself is replaced: another type, or a number or string that differs. */
  predicate Replaced(from: Json, to: Json) {
    match (from, to)
    case (Number(x), Number(y)) => ValueInt(x) != ValueInt(y) || !CompareDouble(x, y)
    case (Str(x), Str(y)) => x != y
    case (Arr(_), Arr(_)) => false
    case (Obj(_), Obj(_)) => false
    case (Invalid, Invalid) => false
    case (Null, Null) => false
    case (False, False) => false
    case (True, True) => false
    case _ => true
  }

  /** Array elements from position `i` on: patch the common ones, remove the rest of `from` at one
      fixed position, append the rest of `to`. */
  function ElemOps(path: string, from: Json, to: Json, i: nat, cs: bool): seq<Op>
    requires from.Arr? && to.Arr? && i <= |from.elems| && i <= |to.elems|
    decreases from, 0, |to.elems| - i
  {
    if i < |from.elems| && i < |to.elems| then
      Ops(path + "/" + Digits(i), from.elems[i], to.elems[i], cs) + ElemOps(path, from, to, i + 1, cs)
    else Removals(path, i, |from.elems| - i) + Additions(path, to.elems[i..])
  }

  function Removals(path: string, i: nat, n: nat): seq<Op> {
    if n == 0 then [] else [RemoveOp(path, Digits(i))] + Removals(path, i, n - 1)
  }

  function Additions(path: string, vs: seq<Json>): seq<Op> {
    if vs == [] then [] else [AddOp(path, "-", vs[0])] + Additions(path, vs[1..])
  }

  ghost predicate MembersOf(x: seq<Member<Json>>, j: Json) {
    j.Obj? && forall m :: m in x ==> m in j.members
  }

  lemma SortedMembers(j: Json, cs: bool)
    requires j.Obj?
    ensures MembersOf(SortList(j.members, cs), j)
  {
    forall m | m in SortList(j.members, cs) ensures m in j.members {
      SortMembership(j.members, cs, m);
    }
  }

  ghost predicate RegularValues(x: seq<Member<Json>>, cs: bool := CI) {
    forall i :: 0 <= i < |x| ==> Regular(x[i].value, cs)
  }

  /** Sorting, under either case rule, keeps values regular. */
  lemma SortedRegular(x: seq<Member<Json>>, rule: bool := CI, cs: bool := CI)
    requires RegularValues(x, cs)
    ensures RegularValues(SortList(x, rule), cs)
  {
    var s := SortList(x, rule);
    forall i | 0 <= i < |s| ensures Regular(s[i].value, cs) {
      SortMembership(x, rule, s[i]);
    }
  }

  /** The walk over two sorted member lists; `x` holds members of `from`. */
  function MemberOps(path: string, ghost from: Json, x: seq<Member<Json>>, y: seq<Member<Json>>, cs: bool): seq<Op>
    requires MembersOf(x, from)
    decreases from, 0, |x| + |y|
  {
    if x == [] && y == [] then []
    else if x == [] || (y != [] && KeyLess(y[0].key, x[0].key, cs)) then
      [AddOp(path, y[0].key, y[0].value)] + MemberOps(path, from, x, y[1..], cs)
    else if y == [] || KeyLess(x[0].key, y[0].key, cs) then
      [RemoveOp(path, x[0].key)] + MemberOps(path, from, x[1..], y, cs)
    else
      assert x[0] in from.members;
      Ops(path + "/" + EncodeToken(x[0].key), x[0].value, y[0].value, cs) + MemberOps(path, from, x[1..], y[1..], cs)
  }

  // ---- when there is nothing to do ----

  /** No operations are generated exactly if `compare_json` says that the documents are equal. */
  lemma {:induction false} NothingToDo(path: string, from: Json, to: Json, cs: bool)
    ensures Ops(path, from, to, cs) == [] <==> CompareSorted(from, to, cs)
    decreases from, 1
  {
    match (from, to) {
      case (Arr(_), Arr(_)) => NoElemOps(path, from, to, 0, cs);
      case (Obj(x), Obj(y)) =>
        SortedMembers(from, cs);
        NoMemberOps(path, from, SortList(x, cs), SortList(y, cs), cs);
      case _ =>
    }
  }

  lemma {:induction false} NoElemOps(path: string, from: Json, to: Json, i: nat, cs: bool)
    requires from.Arr? && to.Arr? && i <= |from.elems| && i <= |to.elems|
    ensures ElemOps(path, from, to, i, cs) == [] <==>
      |from.elems| == |to.elems|
      && forall k :: i <= k < |from.elems| ==> CompareSorted(from.elems[k], to.elems[k], cs)
    decreases from, 0, |to.elems| - i
  {
    hide Ops;
    hide CompareSorted;
    if i < |from.elems| && i < |to.elems| {
      NothingToDo(path + "/" + Digits(i), from.elems[i], to.elems[i], cs);
      NoElemOps(path, from, to, i + 1, cs);
    }
  }

  lemma {:induction false} NoMemberOps(path: string, from: Json, x: seq<Member<Json>>, y: seq<Member<Json>>, cs: bool)
    requires MembersOf(x, from)
    ensures MemberOps(path, from, x, y, cs) == [] <==>
      |x| == |y| && forall i :: 0 <= i < |x| ==>
        SameKey(x[i].key, y[i].key, cs) && CompareSorted(x[i].value, y[i].value, cs)
    decreases from, 0, |x| + |y|
  {
    hide Ops;
    hide CompareSorted;
    hide KeyLess;
    hide Fold;
    hide EncodeToken;
    if x == [] || y == [] {
    } else {
      KeyTrichotomy(x[0].key, y[0].key, cs);
      KeyTrichotomy(y[0].key, x[0].key, cs);
      var op := AddOp(path, y[0].key, y[0].value);
      assert [op] + MemberOps(path, from, x, y[1..], cs) != [];
      assert [RemoveOp(path, x[0].key)] + MemberOps(path, from, x[1..], y, cs) != [];
      if SameKey(x[0].key, y[0].key, cs) {
        assert x[0] in from.members;
        NothingToDo(path + "/" + EncodeToken(x[0].key), x[0].value, y[0].value, cs);
        NoMemberOps(path, from, x[1..], y[1..], cs);
        assert forall i :: 0 < i < |x| ==> x[i] == x[1..][i - 1];
        assert forall i :: 0 < i < |y| ==> y[i] == y[1..][i - 1];
      }
    }
  }
}
