/** JSON Merge Patch: applying one, and the function of RFC 7396 section 2 it computes. */
module MergePatch {
  import opened Text
  import opened Json

  /** Sibling keys are distinct everywhere. */
  ghost predicate Unique(j: Json, cs: bool) {
    match j
    case Arr(es) => forall i :: 0 <= i < |es| ==> Unique(es[i], cs)
    case Obj(ms) => DistinctKeys(ms, cs) && forall i :: 0 <= i < |ms| ==> Unique(ms[i].value, cs)
    case _ => true
  }

  lemma {:induction false} RegularUnique(j: Json, cs: bool)
    requires Regular(j, cs)
    ensures Unique(j, cs)
  {
    match j {
      case Arr(es) =>
        forall i | 0 <= i < |es| ensures Unique(es[i], cs) {
          RegularUnique(es[i], cs);
        }
      case Obj(ms) =>
        forall i | 0 <= i < |ms| ensures Unique(ms[i].value, cs) {
          RegularUnique(ms[i].value, cs);
        }
      case _ =>
    }
  }

  // ---- what the code computes ----

  function MembersOrNone(target: Option<Json>): seq<Member<Json>> {
    if target.Some? && target.value.Obj? then target.value.members else []
  }

  /** `merge_patch`; a missing target is a null pointer. */
  function Merge(target: Option<Json>, patch: Json, cs: bool): Json
    decreases patch, 1
  {
    if patch.Obj? then Obj(MergeMembers(patch, MembersOrNone(target), patch.members, cs)) else patch
  }

  ghost predicate Below(ps: seq<Member<Json>>, patch: Json) {
    forall i :: 0 <= i < |ps| ==> ps[i] in Members(patch)
  }

  function Members(j: Json): seq<Member<Json>> {
    if j.Obj? then j.members else []
  }

  /** What one patch member does to the target's members: detach the old one, then append the new. */
  function MergeMember(ghost patch: Json, ms: seq<Member<Json>>, p: Member<Json>, cs: bool): seq<Member<Json>>
    requires p in Members(patch)
    decreases patch, 0, 0
  {
    var i := FindKey(ms, p.key, cs);
    var rest := if i < |ms| then Without(ms, i) else ms;
    if p.value.Null? then rest
    else rest + [Member(p.key, Merge(if i < |ms| then Some(ms[i].value) else None, p.value, cs))]
  }

  function MergeMembers(ghost patch: Json, ms: seq<Member<Json>>, ps: seq<Member<Json>>, cs: bool): seq<Member<Json>>
    requires Below(ps, patch)
    decreases patch, 0, 1 + |ps|
  {
    if ps == [] then ms
    else MergeMembers(patch, MergeMember(patch, ms, ps[0], cs), ps[1..], cs)
  }

  /** The loop over the members of the patch, editing the target's member list. */
  method MergeInto(target: Option<Json>, patch: Json, cs: bool) returns (result: Json)
    ensures result == Merge(target, patch, cs)
    decreases patch
  {
    if !patch.Obj? {
      return patch;
    }
    var members := MembersOrNone(target);
    var i := 0;
    assert patch.members[0..] == patch.members;
    while i < |patch.members|
      invariant i <= |patch.members| && Below(patch.members[i..], patch)
      invariant MergeMembers(patch, members, patch.members[i..], cs) ==
        MergeMembers(patch, MembersOrNone(target), patch.members, cs)
    {
      var p := patch.members[i];
      assert patch.members[i..][0] == p && patch.members[i..][1..] == patch.members[i + 1..];
      ghost var before := members;
      var k := FindKey(members, p.key, cs);
      var replaced: Option<Json> := None;
      if k < |members| {
        replaced := Some(members[k].value);
        members := Without(members, k);
      }
      if !p.value.Null? {
        var replacement := MergeInto(replaced, p.value, cs);
        members := members + [Member(p.key, replacement)];
      }
      assert members == MergeMember(patch, before, p, cs);
      i := i + 1;
    }
    result := Obj(members);
  }

  // ---- RFC 7396 section 2, on documents ----

  ghost function MapOrNone(target: Option<Doc>): map<string, Doc> {
    if target.Some? && target.value.DObj? then target.value.m else map[]
  }

  /** The MergePatch function of the standard. */
  ghost function RfcMerge(target: Option<Doc>, patch: Doc): Doc
    decreases patch
  {
    if patch.DObj? then
      var base := MapOrNone(target);
      DObj(map k | k in base.Keys + patch.m.Keys && !(k in patch.m && patch.m[k].DNull?) ::
        if k in patch.m then RfcMerge(Entry(base, k), patch.m[k]) else base[k])
    else patch
  }

  ghost function RfcMembers(base: map<string, Doc>, patch: map<string, Doc>): map<string, Doc> {
    map k | k in base.Keys + patch.Keys && !(k in patch && patch[k].DNull?) ::
      if k in patch then RfcMerge(Entry(base, k), patch[k]) else base[k]
  }

  ghost function AbsOption(j: Option<Json>, cs: bool): Option<Doc> {
    if j.Some? then Some(Abs(j.value, cs)) else None
  }

  /** One patch member: delete the entry of a null, else merge into the entry. */
  ghost function RfcMember(base: map<string, Doc>, f: string, v: Doc): map<string, Doc> {
    if v.DNull? then base - {f} else base[f := RfcMerge(Entry(base, f), v)]
  }

  /** Members of a patch can be handled one after the other. */
  lemma RfcOneByOne(base: map<string, Doc>, rest: map<string, Doc>, f: string, v: Doc)
    requires f !in rest
    ensures RfcMembers(RfcMember(base, f, v), rest) == RfcMembers(base, rest[f := v])
  {
    hide RfcMerge;
    var next := RfcMember(base, f, v);
    forall k | k != f ensures Entry(next, k) == Entry(base, k) && (k in next <==> k in base) {
    }
    var a, b := RfcMembers(next, rest), RfcMembers(base, rest[f := v]);
    assert f in a <==> f in b;
    assert forall k :: k in a <==> k in b;
  }

  ghost predicate MembersMerge(ms: seq<Member<Json>>, m: map<string, Doc>, cs: bool) {
    DistinctKeys(ms, cs) && Unique(Obj(ms), cs) && AbsMembers(ms, cs) == m
  }

  lemma UniqueWithout(ms: seq<Member<Json>>, i: nat, cs: bool)
    requires Unique(Obj(ms), cs) && i < |ms|
    ensures Unique(Obj(Without(ms, i)), cs)
  {
    DistinctWithout(ms, i, cs);
    forall k | 0 <= k < |Without(ms, i)| ensures Unique(Without(ms, i)[k].value, cs) {
      assert Without(ms, i)[k] == ms[if k < i then k else k + 1];
    }
  }

  lemma UniqueAppend(ms: seq<Member<Json>>, m: Member<Json>, cs: bool)
    requires Unique(Obj(ms), cs) && Unique(m.value, cs) && FindKey(ms, m.key, cs) == |ms|
    ensures Unique(Obj(ms + [m]), cs)
  {
    DistinctAppend(ms, m, cs);
    forall k | 0 <= k < |ms + [m]| ensures Unique((ms + [m])[k].value, cs) {
      assert (ms + [m])[k] == if k < |ms| then ms[k] else m;
    }
  }

  /** Detaching the member of a key. */
  lemma Detached(ms: seq<Member<Json>>, k: string, cs: bool)
    requires Unique(Obj(ms), cs)
    ensures var i := FindKey(ms, k, cs);
      var rest := if i < |ms| then Without(ms, i) else ms;
      && MembersMerge(rest, AbsMembers(ms, cs) - {Fold(k, cs)}, cs)
      && FindKey(rest, k, cs) == |rest|
      && AbsOption(if i < |ms| then Some(ms[i].value) else None, cs) == Entry(AbsMembers(ms, cs), Fold(k, cs))
  {
    var i := FindKey(ms, k, cs);
    AbsAt(ms, k, cs);
    if i < |ms| {
      UniqueWithout(ms, i, cs);
      FindWithout(ms, i, k, cs);
      AbsWithout(ms, i, cs);
    }
  }

  lemma {:induction false} MergeMemberCorrect(patch: Json, ms: seq<Member<Json>>, p: Member<Json>, cs: bool)
    requires p in Members(patch) && Unique(Obj(ms), cs) && Unique(p.value, cs)
    ensures var want := RfcMember(AbsMembers(ms, cs), Fold(p.key, cs), Abs(p.value, cs));
      MembersMerge(MergeMember(patch, ms, p, cs), want, cs)
    decreases patch, 0, 0
  {
    var i := FindKey(ms, p.key, cs);
    var rest := if i < |ms| then Without(ms, i) else ms;
    Detached(ms, p.key, cs);
    if !p.value.Null? {
      var old_value := if i < |ms| then Some(ms[i].value) else None;
      var v := Merge(old_value, p.value, cs);
      MergeCorrect(old_value, p.value, cs);
      Reattached(ms, rest, p.key, v, cs);
    }
  }

  /** Appending the new member where the old one has been detached. */
  lemma Reattached(ms: seq<Member<Json>>, rest: seq<Member<Json>>, k: string, v: Json, cs: bool)
    requires MembersMerge(rest, AbsMembers(ms, cs) - {Fold(k, cs)}, cs)
    requires Unique(v, cs) && FindKey(rest, k, cs) == |rest|
    ensures MembersMerge(rest + [Member(k, v)], AbsMembers(ms, cs)[Fold(k, cs) := Abs(v, cs)], cs)
  {
    hide Abs;
    hide AbsMembers;
    hide Fold;
    hide FindKey;
    UniqueAppend(rest, Member(k, v), cs);
    AbsAppend(rest, Member(k, v), cs);
    OverwriteEntry(AbsMembers(ms, cs), Fold(k, cs), Abs(v, cs));
  }

  lemma {:induction false} MergeMembersCorrect(patch: Json, ms: seq<Member<Json>>, ps: seq<Member<Json>>, cs: bool)
    requires Below(ps, patch) && Unique(Obj(ms), cs) && Unique(Obj(ps), cs)
    ensures MembersMerge(MergeMembers(patch, ms, ps, cs), RfcMembers(AbsMembers(ms, cs), AbsMembers(ps, cs)), cs)
    decreases patch, 0, 1 + |ps|
  {
    if ps == [] {
      assert RfcMembers(AbsMembers(ms, cs), map[]) == AbsMembers(ms, cs);
    } else {
      var next := MergeMember(patch, ms, ps[0], cs);
      UniqueTail(ps, cs);
      MergeMemberCorrect(patch, ms, ps[0], cs);
      MergeMembersCorrect(patch, next, ps[1..], cs);
      AbsAt(ps[1..], ps[0].key, cs);
      RfcOneByOne(AbsMembers(ms, cs), AbsMembers(ps[1..], cs), Fold(ps[0].key, cs), Abs(ps[0].value, cs));
    }
  }

  lemma UniqueTail(ps: seq<Member<Json>>, cs: bool)
    requires ps != [] && Unique(Obj(ps), cs)
    ensures Unique(Obj(ps[1..]), cs) && Unique(ps[0].value, cs)
    ensures FindKey(ps[1..], ps[0].key, cs) == |ps| - 1
  {
  }

  /** `merge_patch` computes the function of the standard on documents with distinct keys. */
  lemma {:induction false} MergeCorrect(target: Option<Json>, patch: Json, cs: bool)
    requires (target.Some? ==> Unique(target.value, cs)) && Unique(patch, cs)
    ensures Abs(Merge(target, patch, cs), cs) == RfcMerge(AbsOption(target, cs), Abs(patch, cs))
    ensures Unique(Merge(target, patch, cs), cs)
    decreases patch, 1
  {
    if patch.Obj? {
      var ms := MembersOrNone(target);
      assert MapOrNone(AbsOption(target, cs)) == AbsMembers(ms, cs);
      MergeMembersCorrect(patch, ms, patch.members, cs);
      assert RfcMerge(AbsOption(target, cs), Abs(patch, cs))
        == DObj(RfcMembers(AbsMembers(ms, cs), AbsMembers(patch.members, cs)));
    }
  }

  // ---- idempotence ----

  lemma {:induction false} RfcIdempotent(target: Option<Doc>, patch: Doc)
    ensures RfcMerge(Some(RfcMerge(target, patch)), patch) == RfcMerge(target, patch)
    decreases patch
  {
    if patch.DObj? {
      var once := RfcMerge(target, patch);
      var twice := RfcMerge(Some(once), patch);
      assert forall k :: k in once.m <==> k in twice.m;
      forall k | k in once.m ensures twice.m[k] == once.m[k] {
        if k in patch.m {
          RfcIdempotent(Entry(MapOrNone(target), k), patch.m[k]);
        }
      }
    }
  }

  /** Merging the same patch again changes nothing. */
  lemma MergeIdempotent(target: Json, patch: Json, cs: bool)
    requires Unique(target, cs) && Unique(patch, cs)
    ensures var once := Merge(Some(target), patch, cs);
      Abs(Merge(Some(once), patch, cs), cs) == Abs(once, cs)
  {
    MergeCorrect(Some(target), patch, cs);
    MergeCorrect(Some(Merge(Some(target), patch, cs)), patch, cs);
    RfcIdempotent(AbsOption(Some(target), cs), Abs(patch, cs));
  }
}
