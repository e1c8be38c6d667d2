/** Generating a JSON Merge Patch, and when it works. */
module MergeGen {
  import opened Text
  import opened Json
  import opened Sorting
  import opened Compare
  import opened PatchGen
  import opened Generator
  import opened MergePatch

  // ---- what the code computes ----

  /** `generate_merge_patch`; None is the null pointer, "no patch". The members are sorted under the
      given case rule, but nested objects always go through the entry point that ignores case. */
  ghost function Generate(from: Json, to: Json, cs: bool): Option<Json>
    decreases from, 1
  {
    if !to.Obj? || !from.Obj? then Some(to)
    else
      SortedMembers(from, cs);
      var ms := GenerateMembers(from, SortList(from.members, cs), SortList(to.members, cs), cs);
      if ms == [] then None else Some(Obj(ms))
  }

  /** The walk over the two sorted lists; unlike the sort, it compares keys byte by byte. */
  ghost function GenerateMembers(from: Json, x: seq<Member<Json>>, y: seq<Member<Json>>, cs: bool): seq<Member<Json>>
    requires MembersOf(x, from)
    decreases from, 0, |x| + |y|
  {
    if x == [] && y == [] then []
    else if y == [] || (x != [] && LexLess(x[0].key, y[0].key)) then
      [Member(x[0].key, Null)] + GenerateMembers(from, x[1..], y, cs)
    else if x == [] || LexLess(y[0].key, x[0].key) then
      [Member(y[0].key, y[0].value)] + GenerateMembers(from, x, y[1..], cs)
    else
      assert x[0] in from.members;
      var sub := if CompareSorted(x[0].value, y[0].value, cs) then None else Generate(x[0].value, y[0].value, false);
      (if sub.Some? then [Member(y[0].key, sub.value)] else []) + GenerateMembers(from, x[1..], y[1..], cs)
  }

  method GenerateMergePatch(from: Json, to: Json, cs: bool) returns (patch: Option<Json>)
    ensures patch == Generate(from, to, cs)
    decreases from, 2
  {
    if !to.Obj? || !from.Obj? {
      return Some(to);
    }
    var s, t := SortList(from.members, cs), SortList(to.members, cs);
    SortedMembers(from, cs);
    var members := GenerateWalk(from, s, t, cs);
    patch := if members == [] then None else Some(Obj(members));
  }

  method GenerateWalk(ghost from: Json, s: seq<Member<Json>>, t: seq<Member<Json>>, cs: bool)
    returns (members: seq<Member<Json>>)
    requires MembersOf(s, from)
    ensures members == GenerateMembers(from, s, t, cs)
    decreases from, 1
  {
    ghost var all := GenerateMembers(from, s, t, cs);
    assert s[0..] == s && t[0..] == t;
    assert GenerateMembers(from, [], [], cs) == [];
    hide MembersOf;
    hide GenerateMembers;
    var i, j := 0, 0;
    members := [];
    while i < |s| || j < |t|
      invariant i <= |s| && j <= |t| && MembersOf(s[i..], from)
      invariant all == members + GenerateMembers(from, s[i..], t[j..], cs)
      decreases |s| - i + |t| - j
    {
      var next;
      next, i, j := GenerateMember(from, s, t, i, j, cs);
      Associate(members, next, GenerateMembers(from, s[i..], t[j..], cs));
      members := members + next;
    }
    assert s[i..] == [] && t[j..] == [];
  }

  /** One round: the members to append to the patch, and the new cursors. */
  method GenerateMember(ghost from: Json, s: seq<Member<Json>>, t: seq<Member<Json>>, i: nat, j: nat, cs: bool)
    returns (next: seq<Member<Json>>, i': nat, j': nat)
    requires i <= |s| && j <= |t| && (i < |s| || j < |t|) && MembersOf(s[i..], from)
    ensures i <= i' <= |s| && j <= j' <= |t| && i + j < i' + j' && MembersOf(s[i'..], from)
    ensures GenerateMembers(from, s[i..], t[j..], cs) == next + GenerateMembers(from, s[i'..], t[j'..], cs)
    decreases from, 0
  {
    hide GenerateMembers;
    hide MembersOf;
    GenerateStep(from, s, t, i, j, cs);
    next, i', j' := [], i, j;
    if j == |t| || (i < |s| && LexLess(s[i].key, t[j].key)) {
      next := [Member(s[i].key, Null)];
      i' := i + 1;
    } else if i == |s| || LexLess(t[j].key, s[i].key) {
      next := [t[j]];
      j' := j + 1;
    } else {
      HeadMember(s[i..], from);
      var same := CompareJson(s[i].value, t[j].value, cs);
      if !same {
        var sub := GenerateMergePatch(s[i].value, t[j].value, false);
        if sub.Some? {
          next := [Member(t[j].key, sub.value)];
        }
      }
      i', j' := i + 1, j + 1;
    }
  }

  lemma GenerateStep(from: Json, s: seq<Member<Json>>, t: seq<Member<Json>>, i: nat, j: nat, cs: bool)
    requires i <= |s| && j <= |t| && (i < |s| || j < |t|) && MembersOf(s[i..], from)
    ensures i < |s| ==> MembersOf(s[i + 1..], from)
    ensures GenerateMembers(from, s[i..], t[j..], cs) ==
      if j == |t| || (i < |s| && LexLess(s[i].key, t[j].key)) then
        [Member(s[i].key, Null)] + GenerateMembers(from, s[i + 1..], t[j..], cs)
      else if i == |s| || LexLess(t[j].key, s[i].key) then
        [t[j]] + GenerateMembers(from, s[i..], t[j + 1..], cs)
      else
        var sub := if CompareSorted(s[i].value, t[j].value, cs) then None else Generate(s[i].value, t[j].value, false);
        (if sub.Some? then [Member(t[j].key, sub.value)] else []) + GenerateMembers(from, s[i + 1..], t[j + 1..], cs)
  {
    var x, y := s[i..], t[j..];
    assert i < |s| ==> x[0] == s[i] && x[1..] == s[i + 1..];
    assert j < |t| ==> y[0] == t[j] && y[1..] == t[j + 1..];
  }

  // ---- the patch a document difference calls for ----

  /** The merge patch between two documents: null for a lost member, the value of a new one, a
      nested patch for a changed one. */
  ghost function Difference(from: Doc, to: Doc): Doc
    decreases from
  {
    if from.DObj? && to.DObj? then
      DObj(map k | k in from.m.Keys + to.m.Keys && !(k in from.m && k in to.m && from.m[k] == to.m[k]) ::
        if k !in to.m then DNull else if k !in from.m then to.m[k] else Difference(from.m[k], to.m[k]))
    else to
  }

  /** No member of an object outside of arrays is null. */
  ghost predicate NullFree(d: Doc) {
    d.DObj? ==> forall k :: k in d.m ==> !d.m[k].DNull? && NullFree(d.m[k])
  }

  /** A merge patch can express the change: members that change or appear are not null, and nothing
      that is built anew has null members. */
  ghost predicate Expressible(from: Doc, to: Doc)
    decreases from
  {
    if from.DObj? && to.DObj? then
      forall k :: k in to.m ==>
        if k in from.m then from.m[k] == to.m[k] || (!to.m[k].DNull? && Expressible(from.m[k], to.m[k]))
        else !to.m[k].DNull? && NullFree(to.m[k])
    else NullFree(to)
  }

  /** Building from nothing strips null members, so it gives the patch itself only without any. */
  lemma {:induction false} BuildFromNothing(target: Option<Doc>, d: Doc)
    requires MapOrNone(target) == map[]
    ensures RfcMerge(target, d) == d <==> NullFree(d)
    decreases d
  {
    if d.DObj? {
      var r := RfcMerge(target, d);
      forall k | k in d.m ensures RfcMerge(Entry(map[], k), d.m[k]) == d.m[k] <==> NullFree(d.m[k]) {
        BuildFromNothing(Entry(map[], k), d.m[k]);
      }
      assert forall k :: k in d.m && !d.m[k].DNull? ==> k in r.m && r.m[k] == RfcMerge(Entry(map[], k), d.m[k]);
      assert forall k :: k in d.m && d.m[k].DNull? ==> k !in r.m;
      if NullFree(d) {
        assert r.m == d.m;
      }
    }
  }

  /** What merging the difference leaves under key `k`. */
  lemma MergedEntry(from: Doc, to: Doc, k: string)
    requires from.DObj? && to.DObj?
    ensures var r := RfcMerge(Some(from), Difference(from, to)).m;
      Entry(r, k) ==
        if k !in to.m then None
        else if k in from.m && from.m[k] == to.m[k] then Some(to.m[k])
        else if k in from.m then
          if Difference(from.m[k], to.m[k]).DNull? then None
          else Some(RfcMerge(Some(from.m[k]), Difference(from.m[k], to.m[k])))
        else if to.m[k].DNull? then None
        else Some(RfcMerge(None, to.m[k]))
  {
    assert MapOrNone(Some(from)) == from.m;
    assert k in from.m ==> Entry(from.m, k) == Some(from.m[k]);
  }

  /** Merging the difference gives the second document exactly when the change is expressible. */
  lemma {:induction false} DifferenceWorks(from: Doc, to: Doc)
    ensures RfcMerge(Some(from), Difference(from, to)) == to <==> Expressible(from, to)
    decreases from
  {
    if from.DObj? && to.DObj? {
      var r := RfcMerge(Some(from), Difference(from, to)).m;
      forall k ensures Entry(r, k) == Entry(to.m, k) <==> EntryExpressible(from, to, k) {
        MergedEntry(from, to, k);
        if k in from.m && k in to.m {
          DifferenceWorks(from.m[k], to.m[k]);
          NullDifference(from.m[k], to.m[k]);
        } else if k in to.m {
          BuildFromNothing(None, to.m[k]);
        }
      }
      EntriesEqual(r, to.m);
      ExpressibleEntries(from, to);
      assert RfcMerge(Some(from), Difference(from, to)) == DObj(r) && to == DObj(to.m);
      assert (forall k :: Entry(r, k) == Entry(to.m, k)) <==> (forall k :: EntryExpressible(from, to, k));
    } else {
      BuildFromOther(from, to);
    }
  }

  ghost predicate EntryExpressible(from: Doc, to: Doc, k: string)
    requires from.DObj? && to.DObj?
  {
    k in to.m ==>
      if k in from.m then from.m[k] == to.m[k] || (!to.m[k].DNull? && Expressible(from.m[k], to.m[k]))
      else !to.m[k].DNull? && NullFree(to.m[k])
  }

  lemma ExpressibleEntries(from: Doc, to: Doc)
    requires from.DObj? && to.DObj?
    ensures Expressible(from, to) <==> forall k :: EntryExpressible(from, to, k)
  {
    if forall k :: EntryExpressible(from, to, k) {
      forall k | k in to.m
        ensures if k in from.m then from.m[k] == to.m[k] || (!to.m[k].DNull? && Expressible(from.m[k], to.m[k]))
                else !to.m[k].DNull? && NullFree(to.m[k])
      {
        assert EntryExpressible(from, to, k);
      }
    }
  }

  lemma NullDifference(from: Doc, to: Doc)
    ensures Difference(from, to).DNull? <==> to.DNull?
  {
  }

  lemma EntriesEqual(a: map<string, Doc>, b: map<string, Doc>)
    ensures a == b <==> forall k :: Entry(a, k) == Entry(b, k)
  {
    if forall k :: Entry(a, k) == Entry(b, k) {
      forall k ensures k in a <==> k in b {
        assert Entry(a, k) == Entry(b, k);
      }
      forall k | k in a ensures a[k] == b[k] {
        assert Entry(a, k) == Entry(b, k);
      }
    }
  }

  lemma BuildFromOther(from: Doc, to: Doc)
    requires !(from.DObj? && to.DObj?)
    ensures RfcMerge(Some(from), to) == to <==> NullFree(to)
  {
    if to.DObj? {
      BuildFromNothing(Some(from), to);
    }
  }

  // ---- the walk computes the difference when byte order and folded order agree ----

  predicate StrcmpAgrees(a: string, b: string) {
    (LexLess(a, b) <==> KeyLess(a, b, CI)) && (LexLess(b, a) <==> KeyLess(b, a, CI))
  }

  /** Wherever the two documents have objects in the same place, `strcmp` orders a key of one and a
      key of the other as the case-insensitive comparison does. */
  ghost predicate CaseNeutral(from: Json, to: Json)
    decreases from
  {
    from.Obj? && to.Obj? ==>
      forall i, j :: 0 <= i < |from.members| && 0 <= j < |to.members| ==>
        StrcmpAgrees(from.members[i].key, to.members[j].key) &&
        (SameKey(from.members[i].key, to.members[j].key, CI) ==>
          CaseNeutral(from.members[i].value, to.members[j].value))
  }

  predicate NoCapitals(k: string) {
    forall i :: 0 <= i < |k| ==> !('A' <= k[i] <= 'Z')
  }

  /** Keys without capital letters are the usual case. */
  ghost predicate LowerKeys(j: Json) {
    match j
    case Arr(es) => forall i :: 0 <= i < |es| ==> LowerKeys(es[i])
    case Obj(ms) => forall i :: 0 <= i < |ms| ==> NoCapitals(ms[i].key) && LowerKeys(ms[i].value)
    case _ => true
  }

  lemma NoCapitalsFold(k: string)
    requires NoCapitals(k)
    ensures Fold(k, CI) == k
  {
  }

  lemma {:induction false} LowerNeutral(from: Json, to: Json)
    requires LowerKeys(from) && LowerKeys(to)
    ensures CaseNeutral(from, to)
    decreases from
  {
    if from.Obj? && to.Obj? {
      forall i, j | 0 <= i < |from.members| && 0 <= j < |to.members|
        ensures StrcmpAgrees(from.members[i].key, to.members[j].key)
        ensures CaseNeutral(from.members[i].value, to.members[j].value)
      {
        NoCapitalsFold(from.members[i].key);
        NoCapitalsFold(to.members[j].key);
        LowerNeutral(from.members[i].value, to.members[j].value);
      }
    }
  }

  /** What the walk may rely on for the two lists it has left. */
  ghost predicate NeutralLists(x: seq<Member<Json>>, y: seq<Member<Json>>) {
    && (forall m, n :: m in x && n in y ==> StrcmpAgrees(m.key, n.key))
    && (forall m, n :: m in x && n in y && SameKey(m.key, n.key, CI) ==> CaseNeutral(m.value, n.value))
    && (forall m :: m in x ==> Regular(m.value, CI)) && (forall n :: n in y ==> Regular(n.value, CI))
    && Ascending(x, CI) && DistinctKeys(x, CI) && Ascending(y, CI) && DistinctKeys(y, CI)
  }

  ghost function DiffMap(from: map<string, Doc>, to: map<string, Doc>): map<string, Doc> {
    Difference(DObj(from), DObj(to)).m
  }

  /** The generated members: distinct keys, regular values, and the difference as a map. */
  ghost predicate MakesDiff(ms: seq<Member<Json>>, d: map<string, Doc>) {
    Regular(Obj(ms), CI) && AbsMembers(ms, CI) == d
  }

  lemma PrependMember(m: Member<Json>, rest: seq<Member<Json>>, d: map<string, Doc>)
    requires MakesDiff(rest, d) && Regular(m.value, CI) && Fold(m.key, CI) !in d
    ensures MakesDiff([m] + rest, d[Fold(m.key, CI) := Abs(m.value, CI)])
  {
    hide Fold;
    hide Abs;
    var ms := [m] + rest;
    assert ms[1..] == rest;
    AbsAt(rest, m.key, CI);
    forall i | 0 <= i < |ms| ensures Regular(ms[i].value, CI) {
      assert ms[i] == if i == 0 then m else rest[i - 1];
    }
  }

  lemma DiffLost(from: map<string, Doc>, to: map<string, Doc>, f: string)
    requires f in from && f !in to
    ensures f !in DiffMap(from - {f}, to) && DiffMap(from, to) == DiffMap(from - {f}, to)[f := DNull]
  {
  }

  lemma DiffNew(from: map<string, Doc>, to: map<string, Doc>, f: string)
    requires f !in from && f in to
    ensures f !in DiffMap(from, to - {f}) && DiffMap(from, to) == DiffMap(from, to - {f})[f := to[f]]
  {
  }

  lemma DiffBoth(from: map<string, Doc>, to: map<string, Doc>, f: string)
    requires f in from && f in to
    ensures var rest := DiffMap(from - {f}, to - {f});
      f !in rest && DiffMap(from, to) == if from[f] == to[f] then rest else rest[f := Difference(from[f], to[f])]
  {
  }

  lemma NeutralTails(x: seq<Member<Json>>, y: seq<Member<Json>>)
    requires NeutralLists(x, y)
    ensures x != [] ==> NeutralLists(x[1..], y) && Regular(x[0].value, CI)
    ensures y != [] ==> NeutralLists(x, y[1..]) && Regular(y[0].value, CI)
    ensures x != [] && y != [] ==> NeutralLists(x[1..], y[1..]) && StrcmpAgrees(x[0].key, y[0].key)
    ensures x != [] && y != [] && SameKey(x[0].key, y[0].key, CI) ==> CaseNeutral(x[0].value, y[0].value)
  {
  }

  lemma LostFirst(x: seq<Member<Json>>, y: seq<Member<Json>>, rest: seq<Member<Json>>)
    requires NeutralLists(x, y) && x != [] && (y == [] || KeyLess(x[0].key, y[0].key, CI))
    requires MakesDiff(rest, DiffMap(AbsMembers(x[1..], CI), AbsMembers(y, CI)))
    ensures MakesDiff([Member(x[0].key, Null)] + rest, DiffMap(AbsMembers(x, CI), AbsMembers(y, CI)))
  {
    AscendingAbsent(y, x[0].key, CI);
    AbsAt(y, x[0].key, CI);
    HeadGone(x, CI);
    DiffLost(AbsMembers(x, CI), AbsMembers(y, CI), Fold(x[0].key, CI));
    PrependMember(Member(x[0].key, Null), rest, DiffMap(AbsMembers(x[1..], CI), AbsMembers(y, CI)));
  }

  lemma NewFirst(x: seq<Member<Json>>, y: seq<Member<Json>>, rest: seq<Member<Json>>)
    requires NeutralLists(x, y) && y != [] && (x == [] || KeyLess(y[0].key, x[0].key, CI))
    requires MakesDiff(rest, DiffMap(AbsMembers(x, CI), AbsMembers(y[1..], CI)))
    ensures MakesDiff([y[0]] + rest, DiffMap(AbsMembers(x, CI), AbsMembers(y, CI)))
  {
    NeutralTails(x, y);
    AscendingAbsent(x, y[0].key, CI);
    AbsAt(x, y[0].key, CI);
    HeadGone(y, CI);
    hide NeutralLists;
    DiffNew(AbsMembers(x, CI), AbsMembers(y, CI), Fold(y[0].key, CI));
    PrependMember(y[0], rest, DiffMap(AbsMembers(x, CI), AbsMembers(y[1..], CI)));
  }

  lemma BothFirst(x: seq<Member<Json>>, y: seq<Member<Json>>, sub: Option<Json>, rest: seq<Member<Json>>)
    requires NeutralLists(x, y) && x != [] && y != [] && SameKey(x[0].key, y[0].key, CI)
    requires MakesDiff(rest, DiffMap(AbsMembers(x[1..], CI), AbsMembers(y[1..], CI)))
    requires sub.None? <==> Abs(x[0].value, CI) == Abs(y[0].value, CI)
    requires sub.Some? ==>
      Regular(sub.value, CI) && Abs(sub.value, CI) == Difference(Abs(x[0].value, CI), Abs(y[0].value, CI))
    ensures MakesDiff((if sub.Some? then [Member(y[0].key, sub.value)] else []) + rest,
      DiffMap(AbsMembers(x, CI), AbsMembers(y, CI)))
  {
    HeadGone(x, CI);
    HeadGone(y, CI);
    hide Abs;
    hide Fold;
    hide Regular;
    hide NeutralLists;
    hide Difference;
    hide AbsMembers;
    DiffBoth(AbsMembers(x, CI), AbsMembers(y, CI), Fold(y[0].key, CI));
    if sub.Some? {
      PrependMember(Member(y[0].key, sub.value), rest, DiffMap(AbsMembers(x[1..], CI), AbsMembers(y[1..], CI)));
    } else {
      assert [] + rest == rest;
    }
  }

  lemma {:induction false} WalkMakesDiff(from: Json, x: seq<Member<Json>>, y: seq<Member<Json>>)
    requires MembersOf(x, from) && NeutralLists(x, y)
    ensures MakesDiff(GenerateMembers(from, x, y, CI), DiffMap(AbsMembers(x, CI), AbsMembers(y, CI)))
    decreases from, 0, |x| + |y|
  {
    if x == [] && y == [] {
      assert DiffMap(map[], map[]) == map[];
    } else {
      NeutralTails(x, y);
      if x != [] && y != [] {
        LexTrichotomy(x[0].key, y[0].key);
        LexTrichotomy(Fold(x[0].key, CI), Fold(y[0].key, CI));
      }
      hide NeutralLists;
      if y == [] || (x != [] && LexLess(x[0].key, y[0].key)) {
        WalkMakesDiff(from, x[1..], y);
        LostFirst(x, y, GenerateMembers(from, x[1..], y, CI));
      } else if x == [] || LexLess(y[0].key, x[0].key) {
        WalkMakesDiff(from, x, y[1..]);
        NewFirst(x, y, GenerateMembers(from, x, y[1..], CI));
        assert Member(y[0].key, y[0].value) == y[0];
      } else {
        assert x[0] in from.members;
        var u, v := x[0].value, y[0].value;
        SortedDecides(u, v, CI);
        GenerateCorrect(u, v);
        WalkMakesDiff(from, x[1..], y[1..]);
        var sub := if CompareSorted(u, v, CI) then None else Generate(u, v, CI);
        BothFirst(x, y, sub, GenerateMembers(from, x[1..], y[1..], CI));
      }
    }
  }

  /** The generator makes the difference of the two documents; it makes no patch exactly for two
      objects that compare equal. */
  lemma {:induction false} GenerateCorrect(from: Json, to: Json)
    requires Regular(from, CI) && Regular(to, CI) && CaseNeutral(from, to)
    ensures var p := Generate(from, to, CI);
      && (p.None? <==> from.Obj? && to.Obj? && CompareSorted(from, to, CI))
      && (p.None? ==> Difference(Abs(from, CI), Abs(to, CI)) == DObj(map[]))
      && (p.Some? ==> Regular(p.value, CI) && Abs(p.value, CI) == Difference(Abs(from, CI), Abs(to, CI)))
    decreases from, 1
  {
    if from.Obj? && to.Obj? {
      var s, t := SortList(from.members, CI), SortList(to.members, CI);
      SortedMembers(from, CI);
      SortDistinct(from.members, CI);
      SortDistinct(to.members, CI);
      SortedNeutral(from, to);
      WalkMakesDiff(from, s, t);
      var ms := GenerateMembers(from, s, t, CI);
      EmptyMap(ms);
      EmptyDifference(AbsMembers(s, CI), AbsMembers(t, CI));
      SortedDecides(from, to, CI);
      ObjectsEqual(from.members, to.members, CI);
    }
  }

  lemma SortedNeutral(from: Json, to: Json)
    requires from.Obj? && to.Obj? && Regular(from, CI) && Regular(to, CI) && CaseNeutral(from, to)
    ensures NeutralLists(SortList(from.members, CI), SortList(to.members, CI))
  {
    var s, t := SortList(from.members, CI), SortList(to.members, CI);
    SortDistinct(from.members, CI);
    SortDistinct(to.members, CI);
    forall m | m in s ensures m in from.members {
      SortMembership(from.members, CI, m);
    }
    forall n | n in t ensures n in to.members {
      SortMembership(to.members, CI, n);
    }
  }

  lemma EmptyMap(ms: seq<Member<Json>>)
    ensures ms == [] <==> AbsMembers(ms, CI) == map[]
  {
    if ms != [] {
      assert Fold(ms[0].key, CI) in AbsMembers(ms, CI);
    }
  }

  lemma EmptyDifference(from: map<string, Doc>, to: map<string, Doc>)
    ensures DiffMap(from, to) == map[] <==> from == to
  {
    if DiffMap(from, to) == map[] {
      forall k ensures Entry(from, k) == Entry(to, k) {
        assert k !in DiffMap(from, to);
      }
      EntriesEqual(from, to);
    }
  }

  /** The round trip: applying the generated patch to the first document, or leaving it alone if
      there is none, gives the second exactly when a merge patch can express the change. */
  lemma MergeRoundTrip(from: Json, to: Json)
    requires Regular(from, CI) && Regular(to, CI) && CaseNeutral(from, to)
    ensures var p := Generate(from, to, CI);
      var result := if p.Some? then Merge(Some(from), p.value, CI) else from;
      Abs(result, CI) == Abs(to, CI) <==> Expressible(Abs(from, CI), Abs(to, CI))
  {
    GenerateCorrect(from, to);
    DifferenceWorks(Abs(from, CI), Abs(to, CI));
    var p := Generate(from, to, CI);
    if p.Some? {
      RegularUnique(from, CI);
      RegularUnique(p.value, CI);
      MergeCorrect(Some(from), p.value, CI);
    } else {
      SortedDecides(from, to, CI);
      MergeNothing(Abs(from, CI));
    }
  }

  lemma MergeNothing(d: Doc)
    requires d.DObj?
    ensures RfcMerge(Some(d), DObj(map[])) == d
  {
    assert RfcMerge(Some(d), DObj(map[])).m == d.m;
  }

  /** A target without null members is always expressible. */
  lemma {:induction false} NullFreeExpressible(from: Doc, to: Doc)
    requires NullFree(to)
    ensures Expressible(from, to)
    decreases from
  {
    if from.DObj? && to.DObj? {
      forall k | k in to.m && k in from.m ensures Expressible(from.m[k], to.m[k]) {
        NullFreeExpressible(from.m[k], to.m[k]);
      }
    }
  }

  /** Without the agreement of the two orders the generator can go wrong: from {"a":1,"B":2} to
      {"B":2} it makes {"B":2,"a":null,"B":null}, which leaves the empty object. */
  lemma CapitalsFail()
    ensures var one, two := Number(1.0), Number(2.0);
      var from, to := Obj([Member("a", one), Member("B", two)]), Obj([Member("B", two)]);
      var patch := Obj([Member("B", two), Member("a", Null), Member("B", Null)]);
      && Generate(from, to, CI) == Some(patch)
      && Merge(Some(from), patch, CI) == Obj([])
      && Expressible(Abs(from, CI), Abs(to, CI))
  {
    var one, two := Number(1.0), Number(2.0);
    var a, b := Member("a", one), Member("B", two);
    var x, y := [a, b], [b];
    var from, to := Obj(x), Obj(y);
    var patch := Obj([Member("B", two), Member("a", Null), Member("B", Null)]);
    FoldedLetters();
    assert x[1..] == [b] && [b][1..] == [];
    SortedStays(x, CI);
    SortedStays(y, CI);
    SortedMembers(from, CI);
    assert GenerateMembers(from, [], [], CI) == [];
    assert GenerateMembers(from, [b], [], CI) == [Member("B", Null)];
    assert GenerateMembers(from, x, [], CI) == [Member("a", Null)] + GenerateMembers(from, [b], [], CI);
    assert GenerateMembers(from, x, y, CI) == [b] + GenerateMembers(from, x, [], CI);
    var ms := GenerateMembers(from, SortList(from.members, CI), SortList(to.members, CI), CI);
    assert ms == [b] + ([Member("a", Null)] + [Member("B", Null)]) == patch.members;
    CapitalsMerge(patch, a, b);
    CapitalsExpressible(a, b);
  }

  lemma FoldedLetters()
    ensures Fold("a", CI) == "a" && Fold("B", CI) == "b"
    ensures LexLess("B", "a") && !LexLess("a", "B") && KeyLess("a", "B", CI)
  {
    assert Lower("a") == "a" && Lower("B") == "b";
  }

  lemma CapitalsMerge(patch: Json, a: Member<Json>, b: Member<Json>)
    requires a.key == "a" && b.key == "B" && b.value == Number(2.0)
    requires patch == Obj([b, Member("a", Null), Member("B", Null)])
    ensures Merge(Some(Obj([a, b])), patch, CI) == Obj([])
  {
    FoldedLetters();
    var x, ps := [a, b], patch.members;
    assert x[1..] == [b] && [b][1..] == [];
    assert FindKey(x, "B", CI) == 1 && Without(x, 1) == [a];
    assert MergeMember(patch, x, ps[0], CI) == [a] + [b];
    assert FindKey(x, "a", CI) == 0 && Without(x, 0) == [b];
    assert MergeMember(patch, x, ps[1], CI) == [b];
    assert FindKey([b], "B", CI) == 0 && Without([b], 0) == [];
    assert MergeMember(patch, [b], ps[2], CI) == [];
    assert ps[1..] == [ps[1], ps[2]] && ps[1..][1..] == [ps[2]] && ps[1..][1..][1..] == [];
    assert MergeMembers(patch, [b], ps[1..][1..], CI) == [];
    assert MergeMembers(patch, x, ps[1..], CI) == [];
    assert [a] + [b] == x;
  }

  lemma CapitalsExpressible(a: Member<Json>, b: Member<Json>)
    requires a.key == "a" && b.key == "B"
    ensures Expressible(Abs(Obj([a, b]), CI), Abs(Obj([b]), CI))
  {
    FoldedLetters();
    var x := [a, b];
    assert x[1..] == [b] && [b][1..] == [];
    assert AbsMembers([b], CI) == map["b" := Abs(b.value, CI)];
    assert AbsMembers(x, CI) == map["b" := Abs(b.value, CI), "a" := Abs(a.value, CI)];
  }

  /** A member whose key only changes its case: the two documents compare equal, yet there is a patch,
      and it works exactly when the old spelling comes before the new one byte by byte. */
  lemma RecasedMember(a: string, b: string, v: Json)
    requires SameKey(a, b, CI) && a != b && v.Number? && IsInt32(v.d)
    ensures var from, to := Obj([Member(a, v)]), Obj([Member(b, v)]);
      var p := Generate(from, to, CI);
      && CompareLookup(from, to, CI) && p.Some?
      && (CompareLookup(Merge(Some(from), p.value, CI), to, CI) <==> LexLess(a, b))
  {
    var x, y := [Member(a, v)], [Member(b, v)];
    LexTrichotomy(a, b);
    RecasedPatch(a, b, v);
    RecasedMerge(a, b, v);
    RecasedEqual(a, b, v);
  }

  lemma RecasedPatch(a: string, b: string, v: Json)
    requires a != b
    ensures Generate(Obj([Member(a, v)]), Obj([Member(b, v)]), CI)
         == Some(Obj(if LexLess(a, b) then [Member(a, Null), Member(b, v)] else [Member(b, v), Member(a, Null)]))
  {
    var from, x, y := Obj([Member(a, v)]), [Member(a, v)], [Member(b, v)];
    LexTrichotomy(a, b);
    SortedMembers(from, CI);
    assert SortList(x, CI) == x && SortList(y, CI) == y && x[1..] == [] && y[1..] == [];
    assert GenerateMembers(from, [], [], CI) == [];
    if LexLess(a, b) {
      assert GenerateMembers(from, [], y, CI) == [Member(b, v)] + [];
      assert GenerateMembers(from, x, y, CI) == [Member(a, Null)] + [Member(b, v)] == [Member(a, Null), Member(b, v)];
    } else {
      assert GenerateMembers(from, x, [], CI) == [Member(a, Null)] + [];
      assert GenerateMembers(from, x, y, CI) == [Member(b, v)] + [Member(a, Null)] == [Member(b, v), Member(a, Null)];
    }
  }

  lemma RecasedMerge(a: string, b: string, v: Json)
    requires SameKey(a, b, CI) && v.Number?
    ensures Merge(Some(Obj([Member(a, v)])), Obj([Member(a, Null), Member(b, v)]), CI) == Obj([Member(b, v)])
    ensures Merge(Some(Obj([Member(a, v)])), Obj([Member(b, v), Member(a, Null)]), CI) == Obj([])
  {
    var x := [Member(a, v)];
    var p, q := [Member(a, Null), Member(b, v)], [Member(b, v), Member(a, Null)];
    assert Without(x, 0) == [] && Without([Member(b, v)], 0) == [];
    assert p[1..] == [Member(b, v)] && q[1..] == [Member(a, Null)] && p[1..][1..] == [] && q[1..][1..] == [];
    assert MergeMember(Obj(p), x, Member(a, Null), CI) == [];
    assert MergeMember(Obj(p), [], Member(b, v), CI) == [] + [Member(b, v)];
    assert MergeMember(Obj(q), x, Member(b, v), CI) == [] + [Member(b, v)];
    assert MergeMember(Obj(q), [Member(b, v)], Member(a, Null), CI) == [];
    assert MergeMembers(Obj(p), [], p[1..], CI) == [Member(b, v)];
    assert MergeMembers(Obj(q), [Member(b, v)], q[1..], CI) == [];
    assert MergeMembers(Obj(p), x, p, CI) == [Member(b, v)];
    assert MergeMembers(Obj(q), x, q, CI) == [];
  }

  lemma RecasedEqual(a: string, b: string, v: Json)
    requires SameKey(a, b, CI) && v.Number? && IsInt32(v.d)
    ensures CompareLookup(Obj([Member(a, v)]), Obj([Member(b, v)]), CI)
    ensures CompareLookup(Obj([Member(b, v)]), Obj([Member(b, v)]), CI)
    ensures !CompareLookup(Obj([]), Obj([Member(b, v)]), CI)
  {
    CompareDoubleInt(v.d, v.d);
  }
}
