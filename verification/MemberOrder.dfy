/** In which order the members stand after an edit, and how their keys are spelled. */
module MemberOrder {
  import opened Text
  import opened Json
  import opened Patch
  import opened MergePatch

  /** The members whose keys the patch does not name. */
  ghost function Unpatched(ms: seq<Member<Json>>, ps: seq<Member<Json>>, cs: bool): seq<Member<Json>> {
    if ms == [] then []
    else (if FindKey(ps, ms[0].key, cs) == |ps| then [ms[0]] else []) + Unpatched(ms[1..], ps, cs)
  }

  ghost function Keys(ms: seq<Member<Json>>): (ks: seq<string>)
    ensures |ks| == |ms|
  {
    if ms == [] then [] else [ms[0].key] + Keys(ms[1..])
  }

  /** The keys that the patch gives a value. */
  ghost function Given(ps: seq<Member<Json>>): seq<string> {
    if ps == [] then [] else (if ps[0].value.Null? then [] else [ps[0].key]) + Given(ps[1..])
  }

  lemma {:induction false} UnpatchedAppend(ms: seq<Member<Json>>, m: Member<Json>, ps: seq<Member<Json>>, cs: bool)
    ensures Unpatched(ms + [m], ps, cs)
      == Unpatched(ms, ps, cs) + if FindKey(ps, m.key, cs) == |ps| then [m] else []
  {
    if ms == [] {
      assert ms + [m] == [m] && [m][1..] == [];
    } else {
      assert (ms + [m])[1..] == ms[1..] + [m];
      UnpatchedAppend(ms[1..], m, ps, cs);
    }
  }

  lemma FindCons(p: Member<Json>, ps: seq<Member<Json>>, k: string, cs: bool)
    ensures FindKey([p] + ps, k, cs) == if SameKey(p.key, k, cs) then 0 else 1 + FindKey(ps, k, cs)
  {
    assert ([p] + ps)[1..] == ps;
  }

  /** A patch member whose key is not there changes nothing. */
  lemma {:induction false} UnpatchedAbsent(ms: seq<Member<Json>>, p: Member<Json>, ps: seq<Member<Json>>, cs: bool)
    requires FindKey(ms, p.key, cs) == |ms|
    ensures Unpatched(ms, [p] + ps, cs) == Unpatched(ms, ps, cs)
  {
    hide SameKey;
    if ms == [] {
    } else {
      FindCons(p, ps, ms[0].key, cs);
      Same(p.key, ms[0].key, cs);
      UnpatchedAbsent(ms[1..], p, ps, cs);
    }
  }

  lemma Same(a: string, b: string, cs: bool)
    ensures SameKey(a, b, cs) <==> SameKey(b, a, cs)
  {
  }

  lemma {:induction false} UnpatchedDetached(ms: seq<Member<Json>>, p: Member<Json>, ps: seq<Member<Json>>, cs: bool)
    requires DistinctKeys(ms, cs)
    ensures var i := FindKey(ms, p.key, cs);
      Unpatched(if i < |ms| then Without(ms, i) else ms, ps, cs) == Unpatched(ms, [p] + ps, cs)
  {
    hide Fold;
    var i := FindKey(ms, p.key, cs);
    if i == |ms| {
      UnpatchedAbsent(ms, p, ps, cs);
    } else {
      FindCons(p, ps, ms[0].key, cs);
      if i == 0 {
        assert Without(ms, i) == ms[1..];
        FindSame(ms[1..], ms[0].key, p.key, cs);
        UnpatchedAbsent(ms[1..], p, ps, cs);
      } else {
        WithoutStep(ms, i);
        UnpatchedDetached(ms[1..], p, ps, cs);
      }
    }
  }

  /** One patch member: the others stay, and the one it gives a value comes last. */
  lemma OneInOrder(patch: Json, ms: seq<Member<Json>>, p: Member<Json>, ps: seq<Member<Json>>, cs: bool)
    requires p in MergePatch.Members(patch) && DistinctKeys(ms, cs) && FindKey(ps, p.key, cs) == |ps|
    ensures var next, kept := MergeMember(patch, ms, p, cs), Unpatched(ms, [p] + ps, cs);
      if p.value.Null? then Unpatched(next, ps, cs) == kept
      else next != [] && next[|next| - 1].key == p.key && Unpatched(next, ps, cs) == kept + [next[|next| - 1]]
  {
    var i := FindKey(ms, p.key, cs);
    var rest := if i < |ms| then Without(ms, i) else ms;
    UnpatchedDetached(ms, p, ps, cs);
    hide Unpatched;
    hide FindKey;
    hide Merge;
    if !p.value.Null? {
      var next := MergeMember(patch, ms, p, cs);
      UnpatchedAppend(rest, next[|next| - 1], ps, cs);
    }
  }

  lemma JoinOrder(r: seq<Member<Json>>, kept: seq<Member<Json>>, m: Member<Json>)
    requires kept + [m] <= r
    ensures kept <= r && Keys(r[|kept|..]) == [m.key] + Keys(r[|kept| + 1..])
  {
    assert r[|kept|] == m && r[|kept|..][1..] == r[|kept| + 1..];
  }

  /** Members that the patch does not name come first, as they were and in their order; those it gives a
      value follow in the order of the patch and with its spelling. */
  lemma {:induction false} MembersInOrder(patch: Json, ms: seq<Member<Json>>, ps: seq<Member<Json>>, cs: bool)
    requires Below(ps, patch) && Unique(Obj(ms), cs) && Unique(Obj(ps), cs)
    ensures var r, kept := MergeMembers(patch, ms, ps, cs), Unpatched(ms, ps, cs);
      && kept <= r && Keys(r[|kept|..]) == Given(ps)
    decreases |ps|
  {
    hide *;
    if ps == [] {
      AllUnpatched(ms, cs);
      NothingMerged(patch, ms, cs);
    } else {
      OneMerged(patch, ms, ps, cs);
      var p, next := ps[0], MergeMember(patch, ms, ps[0], cs);
      assert ps == [p] + ps[1..];
      UniqueTail(ps, cs);
      MergeMemberCorrect(patch, ms, p, cs);
      StillUnique(next, RfcMember(AbsMembers(ms, cs), Fold(p.key, cs), Abs(p.value, cs)), cs);
      MembersInOrder(patch, next, ps[1..], cs);
      DistinctOf(ms, cs);
      OneInOrder(patch, ms, p, ps[1..], cs);
      if !p.value.Null? {
        JoinOrder(MergeMembers(patch, next, ps[1..], cs), Unpatched(ms, ps, cs), next[|next| - 1]);
      }
    }
  }

  lemma OneMerged(patch: Json, ms: seq<Member<Json>>, ps: seq<Member<Json>>, cs: bool)
    requires ps != [] && Below(ps, patch)
    ensures ps[0] in MergePatch.Members(patch) && Below(ps[1..], patch)
    ensures MergeMembers(patch, ms, ps, cs) == MergeMembers(patch, MergeMember(patch, ms, ps[0], cs), ps[1..], cs)
    ensures Given(ps) == (if ps[0].value.Null? then [] else [ps[0].key]) + Given(ps[1..])
  {
    hide MergeMember;
  }

  lemma StillUnique(ms: seq<Member<Json>>, m: map<string, Doc>, cs: bool)
    requires MembersMerge(ms, m, cs)
    ensures Unique(Obj(ms), cs)
  {
  }

  lemma NothingMerged(patch: Json, ms: seq<Member<Json>>, cs: bool)
    ensures Below([], patch) && MergeMembers(patch, ms, [], cs) == ms && Given([]) == [] && Keys([]) == []
  {
  }

  lemma {:induction false} AllUnpatched(ms: seq<Member<Json>>, cs: bool)
    ensures Unpatched(ms, [], cs) == ms
  {
    if ms == [] {
    } else {
      AllUnpatched(ms[1..], cs);
      assert ms == [ms[0]] + ms[1..];
    }
  }

  lemma DistinctOf(ms: seq<Member<Json>>, cs: bool)
    requires Unique(Obj(ms), cs)
    ensures DistinctKeys(ms, cs)
  {
  }

  /** The same for a whole merge with an object. */
  lemma MergedInOrder(target: Option<Json>, patch: Json, cs: bool)
    requires (target.Some? ==> Unique(target.value, cs)) && Unique(patch, cs) && patch.Obj?
    ensures var r := Merge(target, patch, cs);
      && r.Obj?
      && var kept := Unpatched(MembersOrNone(target), patch.members, cs);
        kept <= r.members && Keys(r.members[|kept|..]) == Given(patch.members)
  {
    var ms := MembersOrNone(target);
    assert Unique(Obj(ms), cs);
    MembersInOrder(patch, ms, patch.members, cs);
    hide Unpatched;
    hide Keys;
    hide Given;
    hide MergeMembers;
  }

  /** A member added by a patch comes last, in the spelling of the patch; the others keep their order. */
  lemma AddedLast(ms: seq<Member<Json>>, k: string, v: Json, cs: bool)
    requires DistinctKeys(ms, cs)
    ensures var m := Member(k, v); AddChild(Obj(ms), k, v, cs) == Outcome(0, Obj(Unpatched(ms, [m], cs) + [m]))
  {
    var m := Member(k, v);
    var i := FindKey(ms, k, cs);
    UnpatchedDetached(ms, m, [], cs);
    assert [m] + [] == [m];
    AllUnpatched(if i < |ms| then Without(ms, i) else ms, cs);
    hide Unpatched;
    hide FindKey;
  }
}
