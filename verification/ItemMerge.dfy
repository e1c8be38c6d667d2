/** `merge_patch` on linked items: it takes the target apart and puts a whole tree together that holds
    what merging the patch gives. */
module ItemMerge {
  import opened Json
  import opened SiblingList
  import opened ItemTree
  import opened ItemPaths
  import opened ItemEdit
  import ItemPatch
  import MergePatch

  /** The items of a target; none if it is a null pointer. */
  ghost function Owned(target: Item?, t: Shape): set<Item> {
    if target == null then {} else Items(t)
  }

  /** `merge_patch`. */
  method MergeItems(target: Item?, patch: Item, cs: bool, ghost t: Shape, ghost j: Json, ghost tp: Shape,
    ghost pj: Json) returns (result: Item, ghost u: Shape)
    requires target != null ==> Stores(target, t, j) && target.next == null
    requires Stores(patch, tp, pj) && Owned(target, t) !! Items(tp)
    modifies Owned(target, t)
    ensures Stores(result, u, MergePatch.Merge(if target == null then None else Some(j), pj, cs)) && result.next == null
    ensures Stores(patch, tp, pj) && forall x :: x in Items(u) ==> x in Owned(target, t) || fresh(x)
    decreases pj, 2
  {
    AllAllocated(tp);
    KidsAllocated(tp.kids);
    KindOf(tp, pj);
    if patch.kind != OBJECT {
      hide Stores;
      result, u := ItemPatch.CopyOf(patch, tp, pj);
      return;
    }
    ghost var ms;
    result, u, ms := AsObject(target, t, j);
    hide Stores;
    u := MergeKids(result, patch, cs, u, ms, tp, pj);
  }

  /** The target, or a new empty object if it is none. */
  method AsObject(target: Item?, ghost t: Shape, ghost j: Json)
    returns (result: Item, ghost u: Shape, ghost ms: seq<Member<Json>>)
    requires target != null ==> Stores(target, t, j) && target.next == null
    ensures ms == MergePatch.MembersOrNone(if target == null then None else Some(j))
    ensures Stores(result, u, Obj(ms)) && result.next == null
    ensures forall x :: x in Items(u) ==> x in Owned(target, t) || fresh(x)
  {
    if target != null {
      KindOf(t, j);
      if target.kind == OBJECT {
        return target, t, j.members;
      }
    }
    result := new Item();
    result.kind := OBJECT;
    u, ms := Shape(result, []), [];
    Childless(result);
    assert Nodes([]) == {};
  }

  /** The loop over the members of the patch. */
  method MergeKids(node: Item, patch: Item, cs: bool, ghost s: Shape, ghost ms: seq<Member<Json>>, ghost tp: Shape,
    ghost pj: Json) returns (ghost u: Shape)
    requires Stores(node, s, Obj(ms)) && node.next == null && Stores(patch, tp, pj) && pj.Obj? && Items(s) !! Items(tp)
    modifies Items(s)
    ensures Stores(node, u, Obj(MergePatch.MergeMembers(pj, ms, pj.members, cs))) && node.next == null
    ensures Stores(patch, tp, pj) && forall x :: x in Items(u) ==> x in Items(s) || fresh(x)
    decreases pj, 1
  {
    hide *;
    AllAllocated(tp);
    KidsAllocated(tp.kids);
    ghost var ps := pj.members;
    PatchKid(patch, tp, pj, 0);
    MergeStart(pj, ms, cs);
    u := s;
    var child := patch.child;
    ghost var i, rest := 0, ms;
    while child != null
      invariant i <= |ps| == |Roots(tp.kids)| == |tp.kids| && child == (if i < |ps| then Roots(tp.kids)[i] else null)
      invariant Stores(node, u, Obj(rest)) && node.next == null && Stores(patch, tp, pj) && Items(u) !! Items(tp)
      invariant forall x :: x in Items(u) ==> x in Items(s) || fresh(x)
      invariant MergesTo(pj, rest, i, cs, MergePatch.MergeMembers(pj, ms, ps, cs))
      decreases |ps| - i
    {
      PatchKid(patch, tp, pj, i);
      MergeOn(pj, rest, i, cs, MergePatch.MergeMembers(pj, ms, ps, cs));
      u := MergeKid(node, child, cs, u, rest, tp, pj, i);
      rest := MergePatch.MergeMember(pj, rest, ps[i], cs);
      PatchKid(patch, tp, pj, i);
      child := child.next;
      i := i + 1;
    }
    MergeEnd(pj, rest, i, cs, MergePatch.MergeMembers(pj, ms, ps, cs));
  }

  /** A child of the patch, and the next one. */
  lemma PatchKid(patch: Item, tp: Shape, pj: Json, i: nat)
    requires Stores(patch, tp, pj) && pj.Obj?
    ensures patch == tp.item && |Roots(tp.kids)| == |tp.kids| == |pj.members|
    ensures patch.child == if pj.members == [] then null else Roots(tp.kids)[0]
    ensures i < |tp.kids| ==>
      && Roots(tp.kids)[i] == tp.kids[i].item
      && Roots(tp.kids)[i].next == if i + 1 < |tp.kids| then Roots(tp.kids)[i + 1] else null
    ensures MergePatch.Below(pj.members, pj)
  {
    MemberKid(tp, pj, i);
    if i < |tp.kids| {
      NextKid(tp, i);
    }
    hide Forest;
    hide Holds;
    hide Nodes;
    hide Roots;
  }

  /** The members from `i` on, merged into `rest`, give `all`. */
  ghost predicate MergesTo(pj: Json, rest: seq<Member<Json>>, i: nat, cs: bool, all: seq<Member<Json>>) {
    && pj.Obj? && i <= |pj.members| && MergePatch.Below(pj.members[i..], pj)
    && all == MergePatch.MergeMembers(pj, rest, pj.members[i..], cs)
  }

  lemma MergeStart(pj: Json, ms: seq<Member<Json>>, cs: bool)
    requires pj.Obj? && MergePatch.Below(pj.members, pj)
    ensures MergesTo(pj, ms, 0, cs, MergePatch.MergeMembers(pj, ms, pj.members, cs))
  {
    assert pj.members[0..] == pj.members;
  }

  lemma MergeOn(pj: Json, rest: seq<Member<Json>>, i: nat, cs: bool, all: seq<Member<Json>>)
    requires MergesTo(pj, rest, i, cs, all) && pj.Obj? && i < |pj.members|
    ensures pj.members[i] in MergePatch.Members(pj)
    ensures MergesTo(pj, MergePatch.MergeMember(pj, rest, pj.members[i], cs), i + 1, cs, all)
  {
    hide MergePatch.MergeMember;
    assert pj.members[i..][0] == pj.members[i] && pj.members[i..][1..] == pj.members[i + 1..];
  }

  lemma MergeEnd(pj: Json, rest: seq<Member<Json>>, i: nat, cs: bool, all: seq<Member<Json>>)
    requires MergesTo(pj, rest, i, cs, all) && pj.Obj? && i == |pj.members|
    ensures all == rest
  {
  }

  /** One member of the patch: a null takes the member out, anything else is merged into it. */
  method MergeKid(node: Item, kid: Item, cs: bool, ghost s: Shape, ghost ms: seq<Member<Json>>, ghost tp: Shape,
    ghost pj: Json, ghost i: nat) returns (ghost u: Shape)
    requires Stores(node, s, Obj(ms)) && node.next == null && Stores(tp.item, tp, pj) && Items(s) !! Items(tp)
    requires pj.Obj? && i < |pj.members| && i < |tp.kids| && kid == tp.kids[i].item
    modifies Items(s)
    ensures Stores(node, u, Obj(MergePatch.MergeMember(pj, ms, pj.members[i], cs))) && node.next == null
    ensures Stores(tp.item, tp, pj) && Items(u) !! Items(tp)
    ensures forall x :: x in Items(u) ==> x in Items(s) || fresh(x)
    decreases pj, 0
  {
    AllAllocated(s);
    AllAllocated(tp);
    KidsAllocated(tp.kids);
    ghost var p := pj.members[i];
    KidStores(tp, pj, i);
    MemberKid(tp, pj, i);
    KindOf(tp.kids[i], p.value);
    NodesOf(tp.kids, i);
    assert node in Items(s) && node !in Nodes(s.kids) && tp.item in Items(tp) && Nodes(tp.kids) <= Items(tp);
    hide Stores;
    hide Items;
    hide Nodes;
    hide FindKey;
    if kid.kind == NULL {
      ghost var rest;
      u, rest := DropNamed(node, kid.name.value, cs, s, ms);
      return;
    }
    u := MergeInto(node, kid, cs, s, ms, tp.kids[i], p);
  }

  method MergeInto(node: Item, kid: Item, cs: bool, ghost s: Shape, ghost ms: seq<Member<Json>>, ghost tk: Shape,
    ghost p: Member<Json>) returns (ghost u: Shape)
    requires Stores(node, s, Obj(ms)) && node.next == null && Stores(kid, tk, p.value) && Items(s) !! Items(tk)
    requires kid.name == Some(p.key)
    modifies Items(s)
    ensures
      var i := FindKey(ms, p.key, cs);
      var v := MergePatch.Merge(if i < |ms| then Some(ms[i].value) else None, p.value, cs);
      Stores(node, u, Obj((if i < |ms| then Without(ms, i) else ms) + [Member(p.key, v)])) && node.next == null
    ensures forall x :: x in Items(u) ==> x in Items(s) || fresh(x)
    decreases p.value, 3
  {
    AllAllocated(s);
    AllAllocated(tk);
    KidsAllocated(tk.kids);
    assert Nodes(tk.kids) <= Items(tk) && kid in Items(tk);
    hide Stores;
    hide Items;
    hide Nodes;
    hide FindKey;
    var replaced;
    ghost var rest, t, j;
    replaced, u, rest, t, j := TakeOut(node, kid.name.value, cs, s, ms);
    AllAllocated(u);
    KidsAllocated(u.kids);
    var replacement;
    ghost var d;
    replacement, d := MergeItems(replaced, kid, cs, t, j, tk, p.value);
    ghost var v := MergePatch.Merge(if replaced == null then None else Some(j), p.value, cs);
    u := PutBack(node, replacement, kid.name.value, u, rest, d, v);
  }

  /** The member of that name is detached, if there is one. */
  method TakeOut(node: Item, name: string, cs: bool, ghost s: Shape, ghost ms: seq<Member<Json>>)
    returns (kid: Item?, ghost u: Shape, ghost rest: seq<Member<Json>>, ghost t: Shape, ghost j: Json)
    requires Stores(node, s, Obj(ms)) && node.next == null
    modifies Items(s)
    ensures var i := FindKey(ms, name, cs);
      && (kid == null <==> i == |ms|) && rest == (if i < |ms| then Without(ms, i) else ms)
      && (i < |ms| ==> j == ms[i].value)
    ensures Stores(node, u, Obj(rest)) && node.next == null && Items(u) <= Items(s)
    ensures kid != null ==> Stores(kid, t, j) && kid.next == null && Items(t) <= Items(s) && Items(t) !! Items(u)
  {
    AllAllocated(s);
    assert node in Items(s) && node !in Nodes(s.kids) && Nodes(s.kids) <= Items(s);
    hide Tree;
    hide Holds;
    hide Nodes;
    hide Items;
    hide FindKey;
    ghost var i;
    kid, i := FindNamed(node, name, cs, s, Obj(ms));
    u, rest, t, j := s, ms, s, Null;
    if kid != null {
      u, rest, t, j := Shape(node, Without(s.kids, i)), Without(ms, i), s.kids[i], ms[i].value;
      DropKid(node, kid, s, ms, i);
    }
  }

  /** The merged value goes behind the others, under the name. */
  method PutBack(node: Item, value: Item, name: string, ghost s: Shape, ghost ms: seq<Member<Json>>, ghost d: Shape,
    ghost v: Json) returns (ghost u: Shape)
    requires Stores(node, s, Obj(ms)) && node.next == null && Stores(value, d, v) && Items(d) !! Items(s)
    requires value.next == null
    modifies Items(s), Items(d)
    ensures Stores(node, u, Obj(ms + [Member(name, v)])) && node.next == null && Items(u) == Items(s) + Items(d)
  {
    AllAllocated(s);
    AllAllocated(d);
    assert node in Items(s) && node !in Nodes(s.kids) && Nodes(s.kids) <= Items(s) && value in Items(d);
    hide Stores;
    hide Items;
    hide Nodes;
    NamedLast(node, value, name, s, ms, d, v);
    u := Shape(node, s.kids + [d]);
  }
}
