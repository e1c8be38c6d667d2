/** Exactly when generating a merge patch and merging it works, whatever the case of the keys. Two case
    rules are at work: `gs` is the one the generator sorts and compares under, at this level, and `cs` the
    one of the merge and of equality. They differ inside the objects of the case-sensitive entry points. */
module MergeExact {
  import opened Text
  import opened Json
  import opened Sorting
  import opened Compare
  import opened PatchGen
  import opened MergePatch
  import opened MergeGen

  // ---- the condition ----

  /** The walk of the generator puts in no member that it takes out again later, and everything put
      in anew or changed can be expressed by a merge patch. */
  ghost predicate Mergeable(from: Json, to: Json, gs: bool, cs: bool)
    decreases from, 1
  {
    if from.Obj? && to.Obj? then
      SortedMembers(from, gs);
      WalkMergeable(from, SortList(from.members, gs), SortList(to.members, gs), gs, cs)
    else NullFree(Abs(to, cs))
  }

  ghost predicate WalkMergeable(from: Json, x: seq<Member<Json>>, y: seq<Member<Json>>, gs: bool, cs: bool)
    requires MembersOf(x, from)
    decreases from, 0, |x| + |y|
  {
    if x == [] && y == [] then true
    else if y == [] || (x != [] && LexLess(x[0].key, y[0].key)) then WalkMergeable(from, x[1..], y, gs, cs)
    else if x == [] || LexLess(y[0].key, x[0].key) then
      FindKey(x, y[0].key, cs) == |x| && Insertable(y[0].value, cs) && WalkMergeable(from, x, y[1..], gs, cs)
    else
      assert x[0] in from.members;
      && (if CompareSorted(x[0].value, y[0].value, gs) then Abs(x[0].value, cs) == Abs(y[0].value, cs)
          else !y[0].value.Null? && Mergeable(x[0].value, y[0].value, CI, cs))
      && WalkMergeable(from, x[1..], y[1..], gs, cs)
  }

  /** A value that a merge patch can put in place of nothing. */
  ghost predicate Insertable(v: Json, cs: bool) {
    !v.Null? && NullFree(Abs(v, cs))
  }

  // ---- merging keeps keys distinct, even if the patch repeats a key ----

  /** Keys may repeat in the objects of a patch, but not inside its arrays. */
  ghost predicate UniqueInside(patch: Json, cs: bool) {
    if patch.Obj? then forall i :: 0 <= i < |patch.members| ==> UniqueInside(patch.members[i].value, cs)
    else Unique(patch, cs)
  }

  lemma {:induction false} RegularInside(j: Json, cs: bool)
    requires Regular(j, cs)
    ensures UniqueInside(j, cs)
  {
    RegularUnique(j, cs);
    if j.Obj? {
      forall i | 0 <= i < |j.members| ensures UniqueInside(j.members[i].value, cs) {
        RegularInside(j.members[i].value, cs);
      }
    }
  }

  lemma {:induction false} MergeUnique(target: Option<Json>, patch: Json, cs: bool)
    requires UniqueInside(patch, cs) && (target.Some? ==> Unique(target.value, cs))
    ensures Unique(Merge(target, patch, cs), cs)
    decreases patch, 1
  {
    if patch.Obj? {
      MergeMembersUnique(patch, MembersOrNone(target), patch.members, cs);
    }
  }

  lemma {:induction false} MergeMembersUnique(patch: Json, ms: seq<Member<Json>>, ps: seq<Member<Json>>, cs: bool)
    requires Below(ps, patch) && UniqueInside(patch, cs) && Unique(Obj(ms), cs)
    ensures Unique(Obj(MergeMembers(patch, ms, ps, cs)), cs)
    decreases patch, 0, 1 + |ps|
  {
    if ps == [] {
    } else {
      MergeMemberUnique(patch, ms, ps[0], cs);
      MergeMembersUnique(patch, MergeMember(patch, ms, ps[0], cs), ps[1..], cs);
    }
  }

  lemma {:induction false} MergeMemberUnique(patch: Json, ms: seq<Member<Json>>, p: Member<Json>, cs: bool)
    requires p in Members(patch) && UniqueInside(p.value, cs) && Unique(Obj(ms), cs)
    ensures Unique(Obj(MergeMember(patch, ms, p, cs)), cs)
    decreases patch, 0, 0
  {
    hide Abs;
    hide AbsMembers;
    hide Fold;
    var i := FindKey(ms, p.key, cs);
    var rest := if i < |ms| then Without(ms, i) else ms;
    Detached(ms, p.key, cs);
    if !p.value.Null? {
      var replaced := if i < |ms| then Some(ms[i].value) else None;
      MergeUnique(replaced, p.value, cs);
      UniqueAppend(rest, Member(p.key, Merge(replaced, p.value, cs)), cs);
    }
  }

  // ---- one member of a patch ----

  /** What one member of a patch makes of the value at its key. */
  ghost function Outcome(ms: seq<Member<Json>>, p: Member<Json>, cs: bool): Option<Json> {
    var i := FindKey(ms, p.key, cs);
    if p.value.Null? then None
    else Some(Merge(if i < |ms| then Some(ms[i].value) else None, p.value, cs))
  }

  lemma MergeOne(patch: Json, ms: seq<Member<Json>>, p: Member<Json>, cs: bool)
    requires p in Members(patch) && Unique(Obj(ms), cs)
    ensures var f, o, was := Fold(p.key, cs), Outcome(ms, p, cs), AbsMembers(ms, cs);
      AbsMembers(MergeMember(patch, ms, p, cs), cs) == if o.Some? then was[f := Abs(o.value, cs)] else was - {f}
  {
    hide Merge;
    hide Abs;
    hide Fold;
    var i := FindKey(ms, p.key, cs);
    var rest := if i < |ms| then Without(ms, i) else ms;
    Detached(ms, p.key, cs);
    if !p.value.Null? {
      var v := Merge(if i < |ms| then Some(ms[i].value) else None, p.value, cs);
      AbsAppend(rest, Member(p.key, v), cs);
      OverwriteEntry(AbsMembers(ms, cs), Fold(p.key, cs), Abs(v, cs));
    }
  }

  lemma MergeCons(patch: Json, ms: seq<Member<Json>>, p: Member<Json>, rest: seq<Member<Json>>, cs: bool)
    requires Below([p] + rest, patch)
    ensures p in Members(patch) && Below(rest, patch)
    ensures MergeMembers(patch, ms, [p] + rest, cs) == MergeMembers(patch, MergeMember(patch, ms, p, cs), rest, cs)
  {
    hide MergeMember;
    var ps := [p] + rest;
    assert ps[0] == p && ps[1..] == rest;
    forall i | 0 <= i < |rest| ensures rest[i] in Members(patch) {
      assert rest[i] == ps[i + 1];
    }
  }

  // ---- the generated patch has distinct keys inside its values ----

  ghost predicate AllInside(ps: seq<Member<Json>>, cs: bool) {
    forall i :: 0 <= i < |ps| ==> UniqueInside(ps[i].value, cs)
  }

  lemma AllInsideCons(p: Member<Json>, rest: seq<Member<Json>>, cs: bool)
    requires UniqueInside(p.value, cs) && AllInside(rest, cs)
    ensures AllInside([p] + rest, cs)
  {
    hide UniqueInside;
    var ps := [p] + rest;
    forall i | 0 <= i < |ps| ensures UniqueInside(ps[i].value, cs) {
      assert ps[i] == if i == 0 then p else rest[i - 1];
    }
  }

  lemma {:induction false} WalkInside(from: Json, x: seq<Member<Json>>, y: seq<Member<Json>>, gs: bool, cs: bool)
    requires MembersOf(x, from) && RegularValues(y, cs)
    ensures AllInside(GenerateMembers(from, x, y, gs), cs)
    decreases from, 0, |x| + |y|
  {
    hide Regular;
    hide UniqueInside;
    if x == [] && y == [] {
    } else if y == [] || (x != [] && LexLess(x[0].key, y[0].key)) {
      WalkInside(from, x[1..], y, gs, cs);
      NullInside(cs);
      AllInsideCons(Member(x[0].key, Null), GenerateMembers(from, x[1..], y, gs), cs);
    } else if x == [] || LexLess(y[0].key, x[0].key) {
      WalkInside(from, x, y[1..], gs, cs);
      RegularInside(y[0].value, cs);
      AllInsideCons(Member(y[0].key, y[0].value), GenerateMembers(from, x, y[1..], gs), cs);
    } else {
      assert x[0] in from.members;
      WalkInside(from, x[1..], y[1..], gs, cs);
      GenerateInside(x[0].value, y[0].value, CI, cs);
      var sub := if CompareSorted(x[0].value, y[0].value, gs) then None else Generate(x[0].value, y[0].value, CI);
      var rest := GenerateMembers(from, x[1..], y[1..], gs);
      if sub.Some? {
        AllInsideCons(Member(y[0].key, sub.value), rest, cs);
      } else {
        assert [] + rest == rest;
      }
    }
  }

  lemma NullInside(cs: bool)
    ensures UniqueInside(Null, cs)
  {
  }

  lemma {:induction false} GenerateInside(from: Json, to: Json, gs: bool, cs: bool)
    requires Regular(to, cs)
    ensures var p := Generate(from, to, gs); p.Some? ==> UniqueInside(p.value, cs)
    decreases from, 1
  {
    if from.Obj? && to.Obj? {
      SortedMembers(from, gs);
      SortedRegular(to.members, gs, cs);
      WalkInside(from, SortList(from.members, gs), SortList(to.members, gs), gs, cs);
    } else {
      RegularInside(to, cs);
    }
  }

  // ---- the walk, one step at a time ----

  /** The patch for the values of two members with one and the same key. */
  ghost function Change(u: Json, v: Json, gs: bool): Option<Json> {
    if CompareSorted(u, v, gs) then None else Generate(u, v, CI)
  }

  lemma WalkStep(from: Json, x: seq<Member<Json>>, y: seq<Member<Json>>, gs: bool)
    requires MembersOf(x, from)
    ensures x != [] ==> MembersOf(x[1..], from)
    ensures GenerateMembers(from, x, y, gs) ==
      if x == [] && y == [] then []
      else if y == [] || (x != [] && LexLess(x[0].key, y[0].key)) then
        [Member(x[0].key, Null)] + GenerateMembers(from, x[1..], y, gs)
      else if x == [] || LexLess(y[0].key, x[0].key) then [y[0]] + GenerateMembers(from, x, y[1..], gs)
      else
        var sub, rest := Change(x[0].value, y[0].value, gs), GenerateMembers(from, x[1..], y[1..], gs);
        if sub.Some? then [Member(y[0].key, sub.value)] + rest else rest
  {
    hide Generate;
    hide CompareSorted;
    hide LexLess;
    if x != [] && y != [] {
      var rest := GenerateMembers(from, x[1..], y[1..], gs);
      assert [] + rest == rest;
    }
  }

  // ---- a key that the rest of the walk does not put in ----

  /** The walk takes such a key out if it is among the members to lose, and else leaves its value alone. */
  lemma {:induction false} Settled(patch: Json, ms: seq<Member<Json>>, from: Json,
    x: seq<Member<Json>>, y: seq<Member<Json>>, f: string, gs: bool, cs: bool)
    requires MembersOf(x, from) && Below(GenerateMembers(from, x, y, gs), patch)
    requires UniqueInside(patch, cs) && Unique(Obj(ms), cs) && f !in AbsMembers(y, cs)
    ensures Entry(AbsMembers(MergeMembers(patch, ms, GenerateMembers(from, x, y, gs), cs), cs), f)
      == if f in AbsMembers(x, cs) then None else Entry(AbsMembers(ms, cs), f)
    decreases |x| + |y|
  {
    WalkStep(from, x, y, gs);
    assert AbsMembers([], cs) == map[];
    if x != [] && y != [] {
      LexTrichotomy(x[0].key, y[0].key);
    }
    hide AbsMembers;
    hide GenerateMembers;
    hide MembersOf;
    hide LexLess;
    hide Fold;
    hide Merge;
    hide MergeMember;
    hide Unique;
    hide UniqueInside;
    if x == [] && y == [] {
    } else if y == [] || (x != [] && LexLess(x[0].key, y[0].key)) {
      var p, rest := Member(x[0].key, Null), GenerateMembers(from, x[1..], y, gs);
      TailKeys(x, f, cs);
      MergeCons(patch, ms, p, rest, cs);
      OneSettled(patch, ms, p, cs);
      Settled(patch, MergeMember(patch, ms, p, cs), from, x[1..], y, f, gs, cs);
    } else if x == [] || LexLess(y[0].key, x[0].key) {
      var p, rest := y[0], GenerateMembers(from, x, y[1..], gs);
      TailKeys(y, f, cs);
      MergeCons(patch, ms, p, rest, cs);
      OneSettled(patch, ms, p, cs);
      Settled(patch, MergeMember(patch, ms, p, cs), from, x, y[1..], f, gs, cs);
    } else {
      var sub, rest := Change(x[0].value, y[0].value, gs), GenerateMembers(from, x[1..], y[1..], gs);
      TailKeys(x, f, cs);
      TailKeys(y, f, cs);
      if sub.Some? {
        var p := Member(y[0].key, sub.value);
        MergeCons(patch, ms, p, rest, cs);
        OneSettled(patch, ms, p, cs);
        Settled(patch, MergeMember(patch, ms, p, cs), from, x[1..], y[1..], f, gs, cs);
      } else {
        Settled(patch, ms, from, x[1..], y[1..], f, gs, cs);
      }
    }
  }

  lemma TailKeys(x: seq<Member<Json>>, f: string, cs: bool)
    requires x != []
    ensures f in AbsMembers(x, cs) <==> f == Fold(x[0].key, cs) || f in AbsMembers(x[1..], cs)
  {
    hide Abs;
    hide Fold;
  }

  lemma OneSettled(patch: Json, ms: seq<Member<Json>>, p: Member<Json>, cs: bool)
    requires p in Members(patch) && UniqueInside(patch, cs) && Unique(Obj(ms), cs)
    ensures Unique(Obj(MergeMember(patch, ms, p, cs)), cs)
    ensures
      var next := AbsMembers(MergeMember(patch, ms, p, cs), cs);
      && (forall f :: f != Fold(p.key, cs) ==> Entry(next, f) == Entry(AbsMembers(ms, cs), f))
      && (p.value.Null? ==> Fold(p.key, cs) !in next)
  {
    MergeMemberUnique(patch, ms, p, cs);
    MergeOne(patch, ms, p, cs);
    hide MergeMember;
    hide Unique;
    hide AbsMembers;
  }

  // ---- the walk, seen through the maps ----

  /** The target still holds what the walk has left of the first object, and nothing else under a
      key that the walk has left of the second. */
  ghost predicate Ready(m: map<string, Doc>, s: map<string, Doc>, t: map<string, Doc>) {
    (forall k :: k in s ==> k in m && m[k] == s[k]) && forall k :: k in t && k in m ==> k in s
  }

  /** What the rest of the walk should make of the target. */
  ghost function Goal(m: map<string, Doc>, s: map<string, Doc>, t: map<string, Doc>): map<string, Doc> {
    (m - s.Keys) + t
  }

  lemma LoseStep(m: map<string, Doc>, s: map<string, Doc>, t: map<string, Doc>, f: string)
    requires Ready(m, s, t) && f in s
    ensures Ready(m - {f}, s - {f}, t) && Goal(m - {f}, s - {f}, t) == Goal(m, s, t)
  {
  }

  lemma PutStep(m: map<string, Doc>, m': map<string, Doc>, s: map<string, Doc>, t: map<string, Doc>, f: string)
    requires Ready(m, s, t) && f in t && Entry(m', f) == Some(t[f])
    requires forall k :: k != f ==> Entry(m', k) == Entry(m, k)
    ensures Ready(m', s - {f}, t - {f}) && Goal(m', s - {f}, t - {f}) == Goal(m, s, t)
  {
    forall k | k in m || k in m' ensures k == f || (k in m && k in m' && m[k] == m'[k]) {
      assert k != f ==> Entry(m', k) == Entry(m, k);
    }
    var a, b := Goal(m', s - {f}, t - {f}), Goal(m, s, t);
    forall k ensures Entry(a, k) == Entry(b, k) {
      assert k != f ==> Entry(m', k) == Entry(m, k);
    }
    EntriesEqual(a, b);
  }

  lemma GoalAt(m: map<string, Doc>, s: map<string, Doc>, t: map<string, Doc>, f: string)
    requires f in t
    ensures Entry(Goal(m, s, t), f) == Some(t[f])
  {
  }

  // ---- what a step leaves under its own key ----

  /** A member put in where there was none comes out right exactly when it is insertable. */
  lemma InsertOutcome(patch: Json, ms: seq<Member<Json>>, p: Member<Json>, cs: bool)
    requires p in Members(patch) && Unique(Obj(ms), cs) && Regular(p.value, cs)
    requires Fold(p.key, cs) !in AbsMembers(ms, cs)
    ensures Entry(AbsMembers(MergeMember(patch, ms, p, cs), cs), Fold(p.key, cs)) == Some(Abs(p.value, cs))
       <==> Insertable(p.value, cs)
  {
    MergeOne(patch, ms, p, cs);
    AbsAt(ms, p.key, cs);
    RegularUnique(p.value, cs);
    MergeCorrect(None, p.value, cs);
    BuildFromNothing(None, Abs(p.value, cs));
    hide Abs;
    hide AbsMembers;
    hide Merge;
    hide MergeMember;
    hide RfcMerge;
    hide NullFree;
    hide Fold;
    hide Regular;
  }

  /** The value of one key in both objects comes out right. */
  ghost predicate Right(u: Json, v: Json, gs: bool, cs: bool) {
    if CompareSorted(u, v, gs) then Abs(u, cs) == Abs(v, cs) else !v.Null? && Mergeable(u, v, CI, cs)
  }

  /** The members after the step of a key that is in both objects. */
  ghost function Changed(patch: Json, ms: seq<Member<Json>>, u: Json, n: Member<Json>, gs: bool,
    cs: bool): seq<Member<Json>>
    requires var sub := Change(u, n.value, gs); sub.Some? ==> Member(n.key, sub.value) in Members(patch)
  {
    var sub := Change(u, n.value, gs);
    if sub.Some? then MergeMember(patch, ms, Member(n.key, sub.value), cs) else ms
  }

  lemma {:induction false} ChangeOutcome(patch: Json, ms: seq<Member<Json>>, u: Json, n: Member<Json>, gs: bool,
    cs: bool)
    requires var sub := Change(u, n.value, gs); sub.Some? ==> Member(n.key, sub.value) in Members(patch)
    requires Unique(Obj(ms), cs) && Regular(u, cs) && Regular(n.value, cs)
    requires Entry(AbsMembers(ms, cs), Fold(n.key, cs)) == Some(Abs(u, cs))
    ensures
      var next := AbsMembers(Changed(patch, ms, u, n, gs, cs), cs);
      Entry(next, Fold(n.key, cs)) == Some(Abs(n.value, cs)) <==> Right(u, n.value, gs, cs)
    decreases u, 2
  {
    AbsAt(ms, n.key, cs);
    var sub, root := Change(u, n.value, gs), ms[FindKey(ms, n.key, cs)].value;
    RightDocs(root, u, n.value, CI, cs);
    NullChange(u, n.value);
    if sub.Some? {
      MergeOne(patch, ms, Member(n.key, sub.value), cs);
    }
    hide Abs;
    hide AbsMembers;
    hide Merge;
    hide MergeMember;
    hide Mergeable;
    hide CompareSorted;
    hide Generate;
    hide Fold;
    hide Regular;
    hide Unique;
  }

  lemma NullChange(u: Json, v: Json)
    ensures var p := Generate(u, v, CI); p.Some? ==> (p.value.Null? <==> v.Null?)
  {
  }

  /** Generating a merge patch and merging it into an equal of the first document gives the second
      exactly when the two are `Mergeable`. */
  lemma {:induction false} RightDocs(root: Json, from: Json, to: Json, gs: bool, cs: bool)
    requires Unique(root, cs) && Regular(from, cs) && Regular(to, cs) && Abs(root, cs) == Abs(from, cs)
    ensures Abs(Merged(root, Generate(from, to, gs), cs), cs) == Abs(to, cs) <==> Mergeable(from, to, gs, cs)
    decreases from, 1
  {
    if from.Obj? && to.Obj? {
      RightObjects(root, from, to, gs, cs);
    } else {
      RegularUnique(to, cs);
      MergeCorrect(Some(root), to, cs);
      BuildFromOther(Abs(root, cs), Abs(to, cs));
    }
  }

  /** The patch merged into the document, which stays as it is without one. */
  ghost function Merged(root: Json, patch: Option<Json>, cs: bool): Json {
    if patch.Some? then Merge(Some(root), patch.value, cs) else root
  }

  lemma {:induction false} RightObjects(root: Json, from: Json, to: Json, gs: bool, cs: bool)
    requires Unique(root, cs) && Regular(from, cs) && Regular(to, cs) && Abs(root, cs) == Abs(from, cs)
    requires from.Obj? && to.Obj?
    ensures Abs(Merged(root, Generate(from, to, gs), cs), cs) == Abs(to, cs) <==> Mergeable(from, to, gs, cs)
    decreases from, 0
  {
    var x, y := SortList(from.members, gs), SortList(to.members, gs);
    SortedMembers(from, gs);
    SortKeeps(from.members, gs, cs);
    SortKeeps(to.members, gs, cs);
    var ps := GenerateMembers(from, x, y, gs);
    var patch := Obj(ps);
    WalkInside(from, x, y, gs, cs);
    MergedMembers(root, ps, cs);
    assert root.Obj? && AbsMembers(root.members, cs) == AbsMembers(x, cs);
    ObjectsEqual(MergeMembers(patch, root.members, ps, cs), to.members, cs);
    assert Mergeable(from, to, gs, cs) == WalkMergeable(from, x, y, gs, cs);
    assert Generate(from, to, gs) == if ps == [] then None else Some(patch);
    hide AbsMembers;
    hide Abs;
    hide MergeMembers;
    hide GenerateMembers;
    hide Generate;
    hide WalkMergeable;
    hide Mergeable;
    hide MembersOf;
    hide SortList;
    hide Ascending;
    hide DistinctKeys;
    hide Regular;
    WalkRight(patch, root.members, from, x, y, gs, cs);
    GoalStart(AbsMembers(x, cs), AbsMembers(y, cs));
  }

  /** Sorting keeps keys distinct under either rule, and the map. */
  lemma SortKeeps(ms: seq<Member<Json>>, gs: bool, cs: bool)
    requires Regular(Obj(ms), cs)
    ensures var s := SortList(ms, gs);
      DistinctKeys(s, cs) && AbsMembers(s, cs) == AbsMembers(ms, cs) && RegularValues(s, cs)
  {
    SortPermutes(ms, gs);
    PermutationAbs(ms, SortList(ms, gs), cs);
    SortedRegular(ms, gs, cs);
  }

  lemma MergedMembers(root: Json, ps: seq<Member<Json>>, cs: bool)
    requires root.Obj?
    ensures var patch := Obj(ps);
      Merged(root, if ps == [] then None else Some(patch), cs) == Obj(MergeMembers(patch, root.members, ps, cs))
  {
  }

  lemma GoalStart(s: map<string, Doc>, t: map<string, Doc>)
    ensures Goal(s, s, t) == t
  {
  }

  ghost predicate WalkLists(x: seq<Member<Json>>, y: seq<Member<Json>>, cs: bool) {
    DistinctKeys(x, cs) && DistinctKeys(y, cs) && RegularValues(x, cs) && RegularValues(y, cs)
  }

  /** The members of the target after the rest of the walk, as a map. */
  ghost function Final(patch: Json, ms: seq<Member<Json>>, from: Json,
    x: seq<Member<Json>>, y: seq<Member<Json>>, gs: bool, cs: bool): map<string, Doc>
    requires MembersOf(x, from) && Below(GenerateMembers(from, x, y, gs), patch)
  {
    AbsMembers(MergeMembers(patch, ms, GenerateMembers(from, x, y, gs), cs), cs)
  }

  /** The rest of the walk reaches its goal exactly when it makes no mistake. */
  lemma {:induction false} WalkRight(patch: Json, ms: seq<Member<Json>>, from: Json,
    x: seq<Member<Json>>, y: seq<Member<Json>>, gs: bool, cs: bool)
    requires MembersOf(x, from) && Below(GenerateMembers(from, x, y, gs), patch)
    requires UniqueInside(patch, cs) && Unique(Obj(ms), cs) && WalkLists(x, y, cs)
    requires Ready(AbsMembers(ms, cs), AbsMembers(x, cs), AbsMembers(y, cs))
    ensures
      var goal := Goal(AbsMembers(ms, cs), AbsMembers(x, cs), AbsMembers(y, cs));
      Final(patch, ms, from, x, y, gs, cs) == goal <==> WalkMergeable(from, x, y, gs, cs)
    decreases from, 0, |x| + |y|, 1
  {
    assert AbsMembers([], cs) == map[];
    if x == [] && y == [] {
      assert Goal(AbsMembers(ms, cs), map[], map[]) == AbsMembers(ms, cs);
    } else if y == [] || (x != [] && LexLess(x[0].key, y[0].key)) {
      LoseRight(patch, ms, from, x, y, gs, cs);
    } else if x == [] || LexLess(y[0].key, x[0].key) {
      PutRight(patch, ms, from, x, y, gs, cs);
    } else {
      ChangeRight(patch, ms, from, x, y, gs, cs);
    }
  }

  lemma {:induction false} LoseRight(patch: Json, ms: seq<Member<Json>>, from: Json,
    x: seq<Member<Json>>, y: seq<Member<Json>>, gs: bool, cs: bool)
    requires x != [] && (y == [] || LexLess(x[0].key, y[0].key))
    requires MembersOf(x, from) && Below(GenerateMembers(from, x, y, gs), patch)
    requires UniqueInside(patch, cs) && Unique(Obj(ms), cs) && WalkLists(x, y, cs)
    requires Ready(AbsMembers(ms, cs), AbsMembers(x, cs), AbsMembers(y, cs))
    ensures
      var goal := Goal(AbsMembers(ms, cs), AbsMembers(x, cs), AbsMembers(y, cs));
      Final(patch, ms, from, x, y, gs, cs) == goal <==> WalkMergeable(from, x, y, gs, cs)
    decreases from, 0, |x| + |y|, 0
  {
    WalkStep(from, x, y, gs);
    ListTails(x, y, cs);
    var m, s, t := AbsMembers(ms, cs), AbsMembers(x, cs), AbsMembers(y, cs);
    var p := Member(x[0].key, Null);
    assert WalkMergeable(from, x, y, gs, cs) == WalkMergeable(from, x[1..], y, gs, cs);
    hide WalkMergeable;
    hide AbsMembers;
    hide Abs;
    hide GenerateMembers;
    hide MembersOf;
    hide LexLess;
    hide Fold;
    hide Merge;
    hide MergeMember;
    hide Unique;
    hide UniqueInside;
    hide WalkLists;
    hide Ready;
    MergeCons(patch, ms, p, GenerateMembers(from, x[1..], y, gs), cs);
    OneSettled(patch, ms, p, cs);
    MergeOne(patch, ms, p, cs);
    HeadGone(x, cs);
    LoseStep(m, s, t, Fold(p.key, cs));
    WalkRight(patch, MergeMember(patch, ms, p, cs), from, x[1..], y, gs, cs);
  }

  lemma {:induction false} PutRight(patch: Json, ms: seq<Member<Json>>, from: Json,
    x: seq<Member<Json>>, y: seq<Member<Json>>, gs: bool, cs: bool)
    requires y != [] && (x == [] || (!LexLess(x[0].key, y[0].key) && LexLess(y[0].key, x[0].key)))
    requires MembersOf(x, from) && Below(GenerateMembers(from, x, y, gs), patch)
    requires UniqueInside(patch, cs) && Unique(Obj(ms), cs) && WalkLists(x, y, cs)
    requires Ready(AbsMembers(ms, cs), AbsMembers(x, cs), AbsMembers(y, cs))
    ensures
      var goal := Goal(AbsMembers(ms, cs), AbsMembers(x, cs), AbsMembers(y, cs));
      Final(patch, ms, from, x, y, gs, cs) == goal <==> WalkMergeable(from, x, y, gs, cs)
    decreases from, 0, |x| + |y|, 0
  {
    WalkStep(from, x, y, gs);
    ListTails(x, y, cs);
    var m, s, t := AbsMembers(ms, cs), AbsMembers(x, cs), AbsMembers(y, cs);
    var p := y[0];
    var f := Fold(p.key, cs);
    AbsAt(x, p.key, cs);
    assert WalkMergeable(from, x, y, gs, cs)
      == (f !in s && Insertable(p.value, cs) && WalkMergeable(from, x, y[1..], gs, cs));
    hide WalkMergeable;
    hide Insertable;
    hide AbsMembers;
    hide Abs;
    hide GenerateMembers;
    hide MembersOf;
    hide LexLess;
    hide Fold;
    hide Merge;
    hide MergeMember;
    hide Unique;
    hide UniqueInside;
    hide WalkLists;
    hide Ready;
    MergeCons(patch, ms, p, GenerateMembers(from, x, y[1..], gs), cs);
    OneSettled(patch, ms, p, cs);
    HeadGone(y, cs);
    GoalAt(m, s, t, f);
    if f !in s {
      Absent(m, s, t, f);
      InsertOutcome(patch, ms, p, cs);
    }
    var next := MergeMember(patch, ms, p, cs);
    if f !in s && Insertable(p.value, cs) {
      PutStep(m, AbsMembers(next, cs), s, t, f);
      WalkRight(patch, next, from, x, y[1..], gs, cs);
    } else {
      Settled(patch, next, from, x, y[1..], f, gs, cs);
    }
  }

  lemma {:induction false} ChangeRight(patch: Json, ms: seq<Member<Json>>, from: Json,
    x: seq<Member<Json>>, y: seq<Member<Json>>, gs: bool, cs: bool)
    requires x != [] && y != [] && !LexLess(x[0].key, y[0].key) && !LexLess(y[0].key, x[0].key)
    requires MembersOf(x, from) && Below(GenerateMembers(from, x, y, gs), patch)
    requires UniqueInside(patch, cs) && Unique(Obj(ms), cs) && WalkLists(x, y, cs)
    requires Ready(AbsMembers(ms, cs), AbsMembers(x, cs), AbsMembers(y, cs))
    ensures
      var goal := Goal(AbsMembers(ms, cs), AbsMembers(x, cs), AbsMembers(y, cs));
      Final(patch, ms, from, x, y, gs, cs) == goal <==> WalkMergeable(from, x, y, gs, cs)
    decreases from, 0, |x| + |y|, 0
  {
    WalkStep(from, x, y, gs);
    ListTails(x, y, cs);
    LexTrichotomy(x[0].key, y[0].key);
    assert x[0] in from.members;
    var m, s, t := AbsMembers(ms, cs), AbsMembers(x, cs), AbsMembers(y, cs);
    var u, n := x[0].value, y[0];
    var f := Fold(n.key, cs);
    assert WalkMergeable(from, x, y, gs, cs)
      == (Right(u, n.value, gs, cs) && WalkMergeable(from, x[1..], y[1..], gs, cs));
    hide WalkMergeable;
    hide Right;
    hide Change;
    hide AbsMembers;
    hide Abs;
    hide GenerateMembers;
    hide MembersOf;
    hide LexLess;
    hide Fold;
    hide Merge;
    hide MergeMember;
    hide Unique;
    hide UniqueInside;
    hide WalkLists;
    hide Ready;
    var sub, rest := Change(u, n.value, gs), GenerateMembers(from, x[1..], y[1..], gs);
    if sub.Some? {
      MergeCons(patch, ms, Member(n.key, sub.value), rest, cs);
      OneSettled(patch, ms, Member(n.key, sub.value), cs);
    }
    HeadGone(x, cs);
    HeadGone(y, cs);
    ReadyAt(m, s, t, f);
    ChangeOutcome(patch, ms, u, n, gs, cs);
    GoalAt(m, s, t, f);
    var next := Changed(patch, ms, u, n, gs, cs);
    if Right(u, n.value, gs, cs) {
      PutStep(m, AbsMembers(next, cs), s, t, f);
      WalkRight(patch, next, from, x[1..], y[1..], gs, cs);
    } else {
      Settled(patch, next, from, x[1..], y[1..], f, gs, cs);
    }
  }

  lemma ReadyAt(m: map<string, Doc>, s: map<string, Doc>, t: map<string, Doc>, f: string)
    requires Ready(m, s, t) && f in s
    ensures Entry(m, f) == Some(s[f])
  {
  }

  lemma Absent(m: map<string, Doc>, s: map<string, Doc>, t: map<string, Doc>, f: string)
    requires Ready(m, s, t) && f in t && f !in s
    ensures f !in m && s - {f} == s
  {
  }

  lemma ListTails(x: seq<Member<Json>>, y: seq<Member<Json>>, cs: bool)
    requires WalkLists(x, y, cs)
    ensures x != [] ==> DistinctKeys(x, cs) && WalkLists(x[1..], y, cs) && Regular(x[0].value, cs)
    ensures y != [] ==> DistinctKeys(y, cs) && WalkLists(x, y[1..], cs) && Regular(y[0].value, cs)
    ensures x != [] && y != [] ==> WalkLists(x[1..], y[1..], cs)
  {
    hide Regular;
    hide FindKey;
  }

  /** The round trip for all documents, by either pair of entry points: merging the generated patch into
      the first gives the second exactly when the walk makes no mistake. */
  lemma RoundTripExactly(from: Json, to: Json, cs: bool)
    requires Regular(from, cs) && Regular(to, cs)
    ensures Abs(Merged(from, Generate(from, to, cs), cs), cs) == Abs(to, cs) <==> Mergeable(from, to, cs, cs)
    ensures Unique(Merged(from, Generate(from, to, cs), cs), cs)
  {
    RegularUnique(from, cs);
    RightDocs(from, from, to, cs, cs);
    GenerateInside(from, to, cs, cs);
    var p := Generate(from, to, cs);
    if p.Some? {
      MergeUnique(Some(from), p.value, cs);
    }
  }

  /** Where the two key orders agree, only null members can spoil the walk. */
  lemma NeutralMergeable(from: Json, to: Json)
    requires Regular(from, CI) && Regular(to, CI) && CaseNeutral(from, to)
    ensures Mergeable(from, to, CI, CI) <==> Expressible(Abs(from, CI), Abs(to, CI))
  {
    RoundTripExactly(from, to, CI);
    MergeRoundTrip(from, to);
  }

  // ---- when there is no patch ----

  /** Position by position the keys are the same, byte by byte, and the values equal. */
  ghost predicate SameSpelling(x: seq<Member<Json>>, y: seq<Member<Json>>) {
    |x| == |y| && forall i :: 0 <= i < |x| ==> x[i].key == y[i].key && Abs(x[i].value, CI) == Abs(y[i].value, CI)
  }

  lemma SpellingStep(x: seq<Member<Json>>, y: seq<Member<Json>>)
    requires x != [] && y != []
    ensures SameSpelling(x, y)
       <==> x[0].key == y[0].key && Abs(x[0].value, CI) == Abs(y[0].value, CI) && SameSpelling(x[1..], y[1..])
  {
    hide Abs;
    if SameSpelling(x[1..], y[1..]) && x[0].key == y[0].key && Abs(x[0].value, CI) == Abs(y[0].value, CI) {
      forall i | 0 <= i < |x| ensures x[i].key == y[i].key && Abs(x[i].value, CI) == Abs(y[i].value, CI) {
        assert i > 0 ==> x[i] == x[1..][i - 1] && y[i] == y[1..][i - 1];
      }
    }
    if SameSpelling(x, y) {
      assert x[0].key == y[0].key;
      forall i | 0 <= i < |x[1..]|
        ensures x[1..][i].key == y[1..][i].key && Abs(x[1..][i].value, CI) == Abs(y[1..][i].value, CI)
      {
        assert x[1..][i] == x[i + 1] && y[1..][i] == y[i + 1];
      }
    }
  }

  lemma {:induction false} NothingGenerated(from: Json, x: seq<Member<Json>>, y: seq<Member<Json>>)
    requires MembersOf(x, from) && RegularValues(x) && RegularValues(y)
    ensures GenerateMembers(from, x, y, CI) == [] <==> SameSpelling(x, y)
    decreases from, 0, |x| + |y|
  {
    WalkStep(from, x, y, CI);
    if x == [] || y == [] {
    } else {
      assert x[0] in from.members;
      LexTrichotomy(x[0].key, y[0].key);
      SpellingStep(x, y);
      SortedDecides(x[0].value, y[0].value, CI);
      NothingGenerated(from, x[1..], y[1..]);
      NoPatch(x[0].value, y[0].value);
    }
  }

  lemma {:induction false} SpellingEqual(x: seq<Member<Json>>, y: seq<Member<Json>>)
    requires SameSpelling(x, y)
    ensures AbsMembers(x, CI) == AbsMembers(y, CI)
  {
    if x == [] {
    } else {
      SpellingStep(x, y);
      SpellingEqual(x[1..], y[1..]);
    }
  }

  /** There is no patch exactly for two objects that are equal and spell their own keys alike; the
      objects inside them may spell theirs as they like. */
  lemma {:induction false} NoPatch(from: Json, to: Json)
    requires Regular(from, CI) && Regular(to, CI)
    ensures Generate(from, to, CI).None? <==>
      from.Obj? && to.Obj? && SameSpelling(SortList(from.members, CI), SortList(to.members, CI))
    ensures Generate(from, to, CI).None? ==> Abs(from, CI) == Abs(to, CI)
    decreases from, 1
  {
    if from.Obj? && to.Obj? {
      var x, y := SortList(from.members, CI), SortList(to.members, CI);
      SortedMembers(from, CI);
      SortedRegular(from.members);
      SortedRegular(to.members);
      NothingGenerated(from, x, y);
      if SameSpelling(x, y) {
        SpellingEqual(x, y);
        SortDistinct(from.members, CI);
        SortDistinct(to.members, CI);
        ObjectsEqual(from.members, to.members, CI);
      }
    }
  }

  // ---- the case of keys further in ----

  function One(k: string, v: Json): Json {
    Obj([Member(k, v)])
  }

  lemma CompareOne(a: string, b: string, u: Json, v: Json, cs: bool)
    ensures CompareSorted(One(a, u), One(b, v), cs) <==> SameKey(a, b, cs) && CompareSorted(u, v, cs)
  {
    hide Fold;
    var x, y := [Member(a, u)], [Member(b, v)];
    assert SortList(x, cs) == x && SortList(y, cs) == y && x[0] == Member(a, u) && y[0] == Member(b, v);
    assert CompareSorted(Obj(x), Obj(y), cs) <==> CompareMembers(Obj(x), x, y, cs);
  }

  lemma GenerateOne(k: string, u: Json, v: Json, gs: bool)
    ensures var sub := Change(u, v, gs);
      Generate(One(k, u), One(k, v), gs) == if sub.Some? then Some(One(k, sub.value)) else None
  {
    var from, x, y := One(k, u), [Member(k, u)], [Member(k, v)];
    hide CompareSorted;
    SortedMembers(from, gs);
    assert SortList(x, gs) == x && SortList(y, gs) == y;
    assert var ms := GenerateMembers(from, x, y, gs);
      Generate(from, One(k, v), gs) == if ms == [] then None else Some(Obj(ms));
    hide Generate;
    WalkStep(from, x, y, gs);
    LexTrichotomy(k, k);
    assert x[1..] == [] && y[1..] == [] && GenerateMembers(from, [], [], gs) == [];
    var sub := Change(u, v, gs);
    hide Change;
    assert sub.Some? ==> [Member(k, sub.value)] + [] == [Member(k, sub.value)];
    assert GenerateMembers(from, x, y, gs) == if sub.Some? then [Member(k, sub.value)] else [];
  }

  /** The case-sensitive generator finds nothing to patch where a key changes its case below two other
      keys, and so leaves the old spelling. */
  lemma InnerCaseLost(k: string, l: string, a: string, b: string, v: Json)
    requires SameKey(a, b, CI) && a != b && CompareSorted(v, v, CI) && Regular(v, true)
    ensures var from, to := One(k, One(l, One(a, v))), One(k, One(l, One(b, v)));
      Generate(from, to, true) == None && Abs(from, true) != Abs(to, true)
  {
    SortedDecides(One(k, One(l, One(a, v))), One(k, One(l, One(b, v))), true);
    hide Abs;
    hide Regular;
    hide CompareSorted;
    hide Generate;
    var p, q := One(a, v), One(b, v);
    CompareOne(a, b, v, v, CI);
    CompareOne(a, b, v, v, true);
    CompareOne(l, l, p, q, true);
    CompareOne(k, k, One(l, p), One(l, q), true);
    GenerateOne(l, p, q, CI);
    GenerateOne(k, One(l, p), One(l, q), true);
  }
}
