/** Applying a generated patch to a copy of the first document gives the second, exactly when the keys
    the patch works on survive being read back from its paths. */
module PatchRoundTrip {
  import opened Text
  import opened Json
  import opened Sorting
  import opened Compare
  import opened Pointer
  import opened Patch
  import opened PatchGen
  import opened PatchKeys
  import opened PatchSteps
  import opened PatchFrame
  import opened PatchSound

  // ---- the condition ----

  /** Every key that is lost, new, or has its item replaced can be read back from a last pointer token,
      throughout the two documents. */
  ghost predicate Survivable(from: Json, to: Json)
    decreases from, 1
  {
    match (from, to)
    case (Arr(x), Arr(y)) => forall i :: 0 <= i < |x| && i < |y| ==> Survivable(x[i], y[i])
    case (Obj(x), Obj(y)) =>
      SortedMembers(from, CI);
      MembersSurvive(from, SortList(x, CI), SortList(y, CI))
    case _ => true
  }

  ghost predicate MembersSurvive(from: Json, x: seq<Member<Json>>, y: seq<Member<Json>>)
    requires MembersOf(x, from)
    decreases from, 0, |x| + |y|
  {
    if x == [] && y == [] then true
    else if x == [] || (y != [] && KeyLess(y[0].key, x[0].key, CI)) then
      Decodable(y[0].key) && MembersSurvive(from, x, y[1..])
    else if y == [] || KeyLess(x[0].key, y[0].key, CI) then
      Decodable(x[0].key) && MembersSurvive(from, x[1..], y)
    else
      assert x[0] in from.members;
      && (if Replaced(x[0].value, y[0].value) then Decodable(x[0].key) else Survivable(x[0].value, y[0].value))
      && MembersSurvive(from, x[1..], y[1..])
  }

  /** Every key can be read back from a last pointer token. */
  ghost predicate DecodableKeys(j: Json) {
    match j
    case Arr(es) => forall i :: 0 <= i < |es| ==> DecodableKeys(es[i])
    case Obj(ms) => forall i :: 0 <= i < |ms| ==> Decodable(ms[i].key) && DecodableKeys(ms[i].value)
    case _ => true
  }

  ghost predicate AllDecodable(x: seq<Member<Json>>) {
    forall i :: 0 <= i < |x| ==> Decodable(x[i].key) && DecodableKeys(x[i].value)
  }

  /** Documents with decodable keys, such as keys without `~` and `/`, are the usual case. */
  lemma {:induction false} DecodableSurvivable(from: Json, to: Json)
    requires DecodableKeys(from) && DecodableKeys(to)
    ensures Survivable(from, to)
    decreases from, 1
  {
    match (from, to) {
      case (Arr(x), Arr(y)) =>
        forall i | 0 <= i < |x| && i < |y| ensures Survivable(x[i], y[i]) {
          DecodableSurvivable(x[i], y[i]);
        }
      case (Obj(x), Obj(y)) =>
        SortedMembers(from, CI);
        SortedDecodable(x);
        SortedDecodable(y);
        DecodableWalk(from, SortList(x, CI), SortList(y, CI));
      case _ =>
    }
  }

  lemma SortedDecodable(x: seq<Member<Json>>)
    requires AllDecodable(x)
    ensures AllDecodable(SortList(x, CI))
  {
    var s := SortList(x, CI);
    forall i | 0 <= i < |s| ensures Decodable(s[i].key) && DecodableKeys(s[i].value) {
      SortMembership(x, CI, s[i]);
    }
  }

  lemma {:induction false} DecodableWalk(from: Json, x: seq<Member<Json>>, y: seq<Member<Json>>)
    requires MembersOf(x, from) && AllDecodable(x) && AllDecodable(y)
    ensures MembersSurvive(from, x, y)
    decreases from, 0, |x| + |y|
  {
    hide Decodable;
    hide KeyLess;
    if x == [] && y == [] {
    } else if x == [] || (y != [] && KeyLess(y[0].key, x[0].key, CI)) {
      DecodableWalk(from, x, y[1..]);
    } else if y == [] || KeyLess(x[0].key, y[0].key, CI) {
      DecodableWalk(from, x[1..], y);
    } else {
      assert x[0] in from.members;
      DecodableSurvivable(x[0].value, y[0].value);
      DecodableWalk(from, x[1..], y[1..]);
    }
  }

  // ---- the keys a walk over two sorted lists works on ----

  /** Keys that stand last in a path. */
  function LastKeys(x: seq<Member<Json>>, y: seq<Member<Json>>): seq<string>
    decreases |x| + |y|
  {
    if x == [] && y == [] then []
    else if x == [] || (y != [] && KeyLess(y[0].key, x[0].key, CI)) then [y[0].key] + LastKeys(x, y[1..])
    else if y == [] || KeyLess(x[0].key, y[0].key, CI) then [x[0].key] + LastKeys(x[1..], y)
    else (if Replaced(x[0].value, y[0].value) then [x[0].key] else []) + LastKeys(x[1..], y[1..])
  }

  /** The walk works on no key that lands on, or is, `f`. */
  ghost predicate Avoids(f: string, x: seq<Member<Json>>, y: seq<Member<Json>>)
    decreases |x| + |y|
  {
    if x == [] && y == [] then true
    else if x == [] || (y != [] && KeyLess(y[0].key, x[0].key, CI)) then
      Fold(Landed(y[0].key), CI) != f && Avoids(f, x, y[1..])
    else if y == [] || KeyLess(x[0].key, y[0].key, CI) then
      Fold(Landed(x[0].key), CI) != f && Avoids(f, x[1..], y)
    else
      && (if Replaced(x[0].value, y[0].value) then Fold(Landed(x[0].key), CI) != f else Fold(x[0].key, CI) != f)
      && Avoids(f, x[1..], y[1..])
  }

  /** Entries a walk avoids are kept. */
  lemma {:induction false} WalkKept(j: Json, from: Json, x: seq<Member<Json>>, y: seq<Member<Json>>, f: string)
    requires j.Obj? && DistinctKeys(j.members, CI) && MembersOf(x, from) && Avoids(f, x, y)
    ensures Kept(j.members, ApplyOps(j, MemberOps("", from, x, y, CI)), f)
    decreases |x| + |y|, 0
  {
    hide KeyLess;
    hide Landed;
    hide Fold;
    hide EncodeToken;
    hide DistinctKeys;
    hide Replaced;
    hide ApplyOps;
    hide Kept;
    hide Ops;
    if x == [] && y == [] {
      NothingKept(j, f);
    } else if x == [] || (y != [] && KeyLess(y[0].key, x[0].key, CI)) {
      var ops := [AddOp("", y[0].key, y[0].value)];
      AddKept(j, y[0].key, y[0].value, f);
      RestKept(j, ops, from, x, y[1..], f);
    } else if y == [] || KeyLess(x[0].key, y[0].key, CI) {
      var ops := [RemoveOp("", x[0].key)];
      RemoveKept(j, x[0].key, f);
      RestKept(j, ops, from, x[1..], y, f);
    } else {
      assert x[0] in from.members;
      RootPath(x[0].key);
      var ops := Ops("/" + EncodeToken(x[0].key), x[0].value, y[0].value, CI);
      BothKept(j, x[0], y[0], f);
      RestKept(j, ops, from, x[1..], y[1..], f);
    }
  }

  lemma NothingKept(j: Json, f: string)
    requires j.Obj? && DistinctKeys(j.members, CI)
    ensures Kept(j.members, ApplyOps(j, []), f)
  {
  }

  lemma {:induction false} RestKept(j: Json, ops: seq<Op>, from: Json,
    x: seq<Member<Json>>, y: seq<Member<Json>>, f: string)
    requires j.Obj? && MembersOf(x, from) && Avoids(f, x, y)
    requires Kept(j.members, ApplyOps(j, ops), f)
    ensures Kept(j.members, ApplyOps(j, ops + MemberOps("", from, x, y, CI)), f)
    decreases |x| + |y|, 1
  {
    hide Avoids;
    hide MemberOps;
    hide DistinctKeys;
    hide AbsMembers;
    var r, rest := ApplyOps(j, ops), MemberOps("", from, x, y, CI);
    if r.status == 0 {
      WalkKept(r.doc, from, x, y, f);
      ApplyConcat(j, ops, rest);
      KeptTwice(j.members, r, ApplyOps(r.doc, rest), f);
    } else {
      FailsFirst(j, ops, rest);
    }
  }

  lemma BothKept(j: Json, m: Member<Json>, n: Member<Json>, f: string)
    requires j.Obj? && DistinctKeys(j.members, CI)
    requires if Replaced(m.value, n.value) then Fold(Landed(m.key), CI) != f else Fold(m.key, CI) != f
    ensures Kept(j.members, ApplyOps(j, Ops("/" + EncodeToken(m.key), m.value, n.value, CI)), f)
  {
    if Replaced(m.value, n.value) {
      ReplacedUnder(m.key, m.value, n.value);
      ReplaceKept(j, m.key, n.value, f);
    } else {
      NestedKept(j, m.key, m.value, n.value, f);
    }
  }

  lemma ReplacedUnder(k: string, from: Json, to: Json)
    requires Replaced(from, to)
    ensures Ops("/" + EncodeToken(k), from, to, CI) == [ReplaceOp("/" + EncodeToken(k), to)]
  {
  }

  /** A list of operations that fails goes on failing when more are appended. */
  lemma {:induction false} FailsFirst(j: Json, a: seq<Op>, b: seq<Op>)
    requires ApplyOps(j, a).status != 0
    ensures ApplyOps(j, a + b) == ApplyOps(j, a)
    decreases |a|
  {
    hide ApplyOp;
    assert a != [];
    assert (a + b)[0] == a[0] && (a + b)[1..] == a[1..] + b;
    if ApplyOp(j, a[0], CI).status == 0 {
      FailsFirst(ApplyOp(j, a[0], CI).doc, a[1..], b);
    }
  }

  // ---- one key that is missed is enough to go wrong ----

  ghost predicate Sorted(x: seq<Member<Json>>) {
    && Ascending(x, CI) && DistinctKeys(x, CI)
    && forall i :: 0 <= i < |x| ==> Regular(x[i].value, CI)
  }

  lemma SortedTail(x: seq<Member<Json>>)
    requires Sorted(x) && x != []
    ensures Sorted(x[1..]) && Regular(x[0].value, CI)
    ensures var f, m, t := Fold(x[0].key, CI), AbsMembers(x, CI), AbsMembers(x[1..], CI);
      f in m && f !in t && m[f] == Abs(x[0].value, CI) && t == m - {f}
  {
    HeadGone(x, CI);
    hide Abs;
    hide Fold;
    hide Regular;
  }

  /** A key below the first one is not in the list. */
  lemma BelowAll(x: seq<Member<Json>>, k: string)
    requires Sorted(x) && (x == [] || KeyLess(k, x[0].key, CI))
    ensures Fold(k, CI) !in AbsMembers(x, CI)
  {
    AscendingAbsent(x, k, CI);
    AbsAt(x, k, CI);
  }

  ghost predicate Occurs(f: string, x: seq<Member<Json>>, y: seq<Member<Json>>) {
    f in AbsMembers(x, CI) || f in AbsMembers(y, CI)
  }

  lemma {:induction false} LastKeyOccurs(x: seq<Member<Json>>, y: seq<Member<Json>>, k: string)
    requires k in LastKeys(x, y)
    ensures Occurs(Fold(k, CI), x, y)
    decreases |x| + |y|
  {
    hide KeyLess;
    hide Fold;
    hide Abs;
    hide Replaced;
    if x == [] || (y != [] && KeyLess(y[0].key, x[0].key, CI)) {
      if k != y[0].key {
        LastKeyOccurs(x, y[1..], k);
      }
    } else if y == [] || KeyLess(x[0].key, y[0].key, CI) {
      if k != x[0].key {
        LastKeyOccurs(x[1..], y, k);
      }
    } else if k != x[0].key {
      LastKeyOccurs(x[1..], y[1..], k);
    }
  }

  /** The first key is a new one. */
  lemma NewHead(x: seq<Member<Json>>, y: seq<Member<Json>>)
    requires Sorted(x) && Sorted(y) && y != [] && (x == [] || KeyLess(y[0].key, x[0].key, CI))
    ensures Sorted(y[1..]) && !Occurs(Fold(y[0].key, CI), x, y[1..]) && Fold(y[0].key, CI) in AbsMembers(y, CI)
    ensures AbsMembers(y[1..], CI) == AbsMembers(y, CI) - {Fold(y[0].key, CI)}
  {
    SortedTail(y);
    BelowAll(x, y[0].key);
  }

  /** The first key is a lost one. */
  lemma LostHead(x: seq<Member<Json>>, y: seq<Member<Json>>)
    requires Sorted(x) && Sorted(y) && x != [] && (y == [] || KeyLess(x[0].key, y[0].key, CI))
    ensures Sorted(x[1..]) && !Occurs(Fold(x[0].key, CI), x[1..], y) && Fold(x[0].key, CI) in AbsMembers(x, CI)
    ensures AbsMembers(x[1..], CI) == AbsMembers(x, CI) - {Fold(x[0].key, CI)}
  {
    SortedTail(x);
    BelowAll(y, x[0].key);
  }

  /** Both lists start with the same key. */
  lemma BothHeads(x: seq<Member<Json>>, y: seq<Member<Json>>)
    requires Sorted(x) && Sorted(y) && x != [] && y != []
    requires !KeyLess(x[0].key, y[0].key, CI) && !KeyLess(y[0].key, x[0].key, CI)
    ensures SameKey(x[0].key, y[0].key, CI)
    ensures Sorted(x[1..]) && Sorted(y[1..]) && Regular(x[0].value, CI) && Regular(y[0].value, CI)
    ensures var f := Fold(x[0].key, CI);
      && !Occurs(f, x[1..], y[1..])
      && AbsMembers(x[1..], CI) == AbsMembers(x, CI) - {f} && AbsMembers(y[1..], CI) == AbsMembers(y, CI) - {f}
      && Entry(AbsMembers(x, CI), f) == Some(Abs(x[0].value, CI))
      && Entry(AbsMembers(y, CI), f) == Some(Abs(y[0].value, CI))
  {
    LexTrichotomy(Fold(x[0].key, CI), Fold(y[0].key, CI));
    SortedTail(x);
    SortedTail(y);
  }

  /** A walk avoids the key no last key of it lands on. */
  lemma {:induction false} AvoidsMissed(ks: seq<string>, z: string, x: seq<Member<Json>>, y: seq<Member<Json>>)
    requires Sorted(x) && Sorted(y)
    requires forall k :: k in LastKeys(x, y) ==> k in ks
    requires forall u :: u in ks ==> !SameKey(Landed(u), z, CI)
    requires z in LastKeys(x, y) || !Occurs(Fold(z, CI), x, y)
    ensures Avoids(Fold(z, CI), x, y)
    decreases |x| + |y|
  {
    hide KeyLess;
    hide Fold;
    hide Abs;
    hide AbsMembers;
    hide Replaced;
    hide Landed;
    hide Sorted;
    var f := Fold(z, CI);
    if x == [] && y == [] {
    } else if x == [] || (y != [] && KeyLess(y[0].key, x[0].key, CI)) {
      NewHead(x, y);
      assert y[0].key in LastKeys(x, y);
      AvoidsMissed(ks, z, x, y[1..]);
    } else if y == [] || KeyLess(x[0].key, y[0].key, CI) {
      LostHead(x, y);
      assert x[0].key in LastKeys(x, y);
      AvoidsMissed(ks, z, x[1..], y);
    } else {
      BothHeads(x, y);
      if z in LastKeys(x[1..], y[1..]) {
        LastKeyOccurs(x[1..], y[1..], z);
      }
      AvoidsMissed(ks, z, x[1..], y[1..]);
    }
  }

  /** A last key stands for a member that is different in the two lists. */
  lemma {:induction false} LastKeyDiffers(x: seq<Member<Json>>, y: seq<Member<Json>>, z: string)
    requires Sorted(x) && Sorted(y) && z in LastKeys(x, y)
    ensures Entry(AbsMembers(x, CI), Fold(z, CI)) != Entry(AbsMembers(y, CI), Fold(z, CI))
    decreases |x| + |y|
  {
    hide KeyLess;
    hide Fold;
    hide Abs;
    hide AbsMembers;
    hide Replaced;
    hide Sorted;
    if x == [] || (y != [] && KeyLess(y[0].key, x[0].key, CI)) {
      NewHead(x, y);
      if z in LastKeys(x, y[1..]) {
        LastKeyOccurs(x, y[1..], z);
        LastKeyDiffers(x, y[1..], z);
      }
    } else if y == [] || KeyLess(x[0].key, y[0].key, CI) {
      LostHead(x, y);
      if z in LastKeys(x[1..], y) {
        LastKeyOccurs(x[1..], y, z);
        LastKeyDiffers(x[1..], y, z);
      }
    } else {
      BothHeads(x, y);
      if z in LastKeys(x[1..], y[1..]) {
        LastKeyOccurs(x[1..], y[1..], z);
        LastKeyDiffers(x[1..], y[1..], z);
      } else {
        ReplacedDiffers(x[0].value, y[0].value);
      }
    }
  }

  lemma ReplacedDiffers(from: Json, to: Json)
    requires Replaced(from, to) && Regular(from, CI) && Regular(to, CI)
    ensures Abs(from, CI) != Abs(to, CI)
  {
    if from.Number? && to.Number? {
      CompareDoubleInt(from.d, to.d);
    }
  }

  /** With a last key that is not decodable, the object does not come out right. */
  lemma MissedKeyFails(j: Json, from: Json, x: seq<Member<Json>>, y: seq<Member<Json>>, bad: string)
    requires j.Obj? && DistinctKeys(j.members, CI) && AbsMembers(j.members, CI) == AbsMembers(x, CI)
    requires MembersOf(x, from) && Sorted(x) && Sorted(y) && bad in LastKeys(x, y) && !Decodable(bad)
    ensures var r := ApplyOps(j, MemberOps("", from, x, y, CI));
      !(r.status == 0 && r.doc.Obj? && AbsMembers(r.doc.members, CI) == AbsMembers(y, CI))
  {
    var z := MissedKey(LastKeys(x, y), bad);
    AvoidsMissed(LastKeys(x, y), z, x, y);
    LastKeyDiffers(x, y, z);
    WalkKept(j, from, x, y, Fold(z, CI));
    hide AbsMembers;
    hide Fold;
    hide LastKeys;
    hide Avoids;
    hide Sorted;
  }

  // ---- the walks, exactly ----

  /** The operations succeed and lead to a document equal to `to`. */
  ghost predicate ComesOut(r: Outcome, to: Json) {
    r.status == 0 && Abs(r.doc, CI) == Abs(to, CI)
  }

  lemma ReplacedSurvives(from: Json, to: Json)
    requires Replaced(from, to)
    ensures Survivable(from, to)
  {
  }

  /** A walk over decodable keys avoids every key that does not occur in it. */
  lemma {:induction false} AvoidsOthers(f: string, x: seq<Member<Json>>, y: seq<Member<Json>>)
    requires (forall k :: k in LastKeys(x, y) ==> Decodable(k)) && !Occurs(f, x, y)
    ensures Avoids(f, x, y)
    decreases |x| + |y|
  {
    hide KeyLess;
    hide Abs;
    hide Decodable;
    hide Replaced;
    hide Fold;
    if x == [] && y == [] {
    } else if x == [] || (y != [] && KeyLess(y[0].key, x[0].key, CI)) {
      assert y[0].key in LastKeys(x, y);
      DecodedSameKey(y[0].key, CI);
      AvoidsOthers(f, x, y[1..]);
    } else if y == [] || KeyLess(x[0].key, y[0].key, CI) {
      assert x[0].key in LastKeys(x, y);
      DecodedSameKey(x[0].key, CI);
      AvoidsOthers(f, x[1..], y);
    } else {
      if Replaced(x[0].value, y[0].value) {
        assert x[0].key in LastKeys(x, y);
        DecodedSameKey(x[0].key, CI);
      }
      AvoidsOthers(f, x[1..], y[1..]);
    }
  }

  /** If the condition holds for what is left of the two lists, the object comes out right. */
  lemma {:induction false} WalkWorks(j: Json, from: Json, done: map<string, Doc>,
    x: seq<Member<Json>>, y: seq<Member<Json>>)
    requires MembersOf(x, from) && MemberState(j, done, x, y) && RegularValues(x) && RegularValues(y)
    requires MembersSurvive(from, x, y)
    ensures MembersTurn(j, MemberOps("", from, x, y, CI), done + AbsMembers(y, CI))
    decreases from, 1, |x| + |y|
  {
    hide Abs;
    hide Fold;
    hide LexLess;
    hide EncodeToken;
    hide Decodable;
    if x == [] && y == [] {
      assert done + AbsMembers(y, CI) == done + AbsMembers(x, CI);
    } else if x == [] || (y != [] && KeyLess(y[0].key, x[0].key, CI)) {
      var ops := [AddOp("", y[0].key, y[0].value)];
      AddState(j, done, x, y);
      WalkWorks(ApplyOps(j, ops).doc, from, done[Fold(y[0].key, CI) := Abs(y[0].value, CI)], x, y[1..]);
      MembersConcat(j, ops, MemberOps("", from, x, y[1..], CI), done + AbsMembers(y, CI));
    } else if y == [] || KeyLess(x[0].key, y[0].key, CI) {
      var ops := [RemoveOp("", x[0].key)];
      RemoveState(j, done, x, y);
      WalkWorks(ApplyOps(j, ops).doc, from, done, x[1..], y);
      MembersConcat(j, ops, MemberOps("", from, x[1..], y, CI), done + AbsMembers(y, CI));
    } else {
      assert x[0] in from.members;
      var ops := Ops("/" + EncodeToken(x[0].key), x[0].value, y[0].value, CI);
      PairWorks(j, from, done, x, y);
      WalkWorks(ApplyOps(j, ops).doc, from, done[Fold(x[0].key, CI) := Abs(y[0].value, CI)], x[1..], y[1..]);
      RootPath(x[0].key);
      MembersConcat(j, ops, MemberOps("", from, x[1..], y[1..], CI), done + AbsMembers(y, CI));
    }
  }

  /** One pair of members with the same key. */
  lemma {:induction false} PairWorks(j: Json, from: Json, done: map<string, Doc>,
    x: seq<Member<Json>>, y: seq<Member<Json>>)
    requires x != [] && y != [] && MembersOf(x, from)
    requires MemberState(j, done, x, y) && RegularValues(x) && RegularValues(y)
    requires !KeyLess(x[0].key, y[0].key, CI) && !KeyLess(y[0].key, x[0].key, CI)
    requires if Replaced(x[0].value, y[0].value) then Decodable(x[0].key) else Survivable(x[0].value, y[0].value)
    ensures var r := ApplyOps(j, Ops("/" + EncodeToken(x[0].key), x[0].value, y[0].value, CI));
      var done' := done[Fold(x[0].key, CI) := Abs(y[0].value, CI)];
      && r.status == 0 && MemberState(r.doc, done', x[1..], y[1..])
      && done' + AbsMembers(y[1..], CI) == done + AbsMembers(y, CI)
    decreases from, 0
  {
    hide Abs;
    hide Fold;
    hide EncodeToken;
    hide Decodable;
    LexTrichotomy(Fold(x[0].key, CI), Fold(y[0].key, CI));
    hide LexLess;
    assert x[0] in from.members;
    var ops := Ops("/" + EncodeToken(x[0].key), x[0].value, y[0].value, CI);
    MemberFound(j, done, x);
    var i := FindKey(j.members, x[0].key, CI);
    if Replaced(x[0].value, y[0].value) {
      ReplacedSurvives(x[0].value, y[0].value);
    }
    RoundTrip(j.members[i].value, x[0].value, y[0].value);
    PatchMember(j, x[0].key, x[0].value, y[0].value);
    PatchState(j, ApplyOps(j, ops), done, x, y);
  }

  /** The object does not come out as the map `target`. */
  ghost predicate Misses(r: Outcome, target: map<string, Doc>) {
    !(r.status == 0 && r.doc.Obj? && AbsMembers(r.doc.members, CI) == target)
  }

  lemma MissesConcat(j: Json, a: seq<Op>, b: seq<Op>, target: map<string, Doc>)
    requires ApplyOps(j, a).status == 0 ==> Misses(ApplyOps(ApplyOps(j, a).doc, b), target)
    ensures Misses(ApplyOps(j, a + b), target)
  {
    if ApplyOps(j, a).status == 0 {
      ApplyConcat(j, a, b);
    } else {
      FailsFirst(j, a, b);
    }
  }

  /** With decodable last keys, if the condition fails inside a member, the object does not come out right. */
  lemma {:induction false} WalkFails(j: Json, from: Json, done: map<string, Doc>,
    x: seq<Member<Json>>, y: seq<Member<Json>>)
    requires MembersOf(x, from) && MemberState(j, done, x, y) && RegularValues(x) && RegularValues(y)
    requires !MembersSurvive(from, x, y) && forall k :: k in LastKeys(x, y) ==> Decodable(k)
    ensures Misses(ApplyOps(j, MemberOps("", from, x, y, CI)), done + AbsMembers(y, CI))
    decreases from, 1, |x| + |y|
  {
    hide Abs;
    hide Fold;
    hide LexLess;
    hide EncodeToken;
    hide Decodable;
    hide Misses;
    if x == [] || (y != [] && KeyLess(y[0].key, x[0].key, CI)) {
      var ops := [AddOp("", y[0].key, y[0].value)];
      assert y[0].key in LastKeys(x, y);
      AddState(j, done, x, y);
      WalkFails(ApplyOps(j, ops).doc, from, done[Fold(y[0].key, CI) := Abs(y[0].value, CI)], x, y[1..]);
      MissesConcat(j, ops, MemberOps("", from, x, y[1..], CI), done + AbsMembers(y, CI));
    } else if y == [] || KeyLess(x[0].key, y[0].key, CI) {
      var ops := [RemoveOp("", x[0].key)];
      assert x[0].key in LastKeys(x, y);
      RemoveState(j, done, x, y);
      WalkFails(ApplyOps(j, ops).doc, from, done, x[1..], y);
      MissesConcat(j, ops, MemberOps("", from, x[1..], y, CI), done + AbsMembers(y, CI));
    } else {
      assert x[0] in from.members;
      var ops := Ops("/" + EncodeToken(x[0].key), x[0].value, y[0].value, CI);
      RootPath(x[0].key);
      if Replaced(x[0].value, y[0].value) {
        assert x[0].key in LastKeys(x, y);
      }
      if Replaced(x[0].value, y[0].value) || Survivable(x[0].value, y[0].value) {
        PairWorks(j, from, done, x, y);
        WalkFails(ApplyOps(j, ops).doc, from, done[Fold(x[0].key, CI) := Abs(y[0].value, CI)], x[1..], y[1..]);
        MissesConcat(j, ops, MemberOps("", from, x[1..], y[1..], CI), done + AbsMembers(y, CI));
      } else {
        PairFails(j, from, done, x, y);
      }
    }
  }

  /** A pair of members whose patch goes wrong: nothing behind it repairs the entry. */
  lemma {:induction false} PairFails(j: Json, from: Json, done: map<string, Doc>,
    x: seq<Member<Json>>, y: seq<Member<Json>>)
    requires x != [] && y != [] && MembersOf(x, from)
    requires MemberState(j, done, x, y) && RegularValues(x) && RegularValues(y)
    requires !KeyLess(x[0].key, y[0].key, CI) && !KeyLess(y[0].key, x[0].key, CI)
    requires !Replaced(x[0].value, y[0].value) && !Survivable(x[0].value, y[0].value)
    requires forall k :: k in LastKeys(x, y) ==> Decodable(k)
    ensures Misses(ApplyOps(j, Ops("/" + EncodeToken(x[0].key), x[0].value, y[0].value, CI)
                               + MemberOps("", from, x[1..], y[1..], CI)), done + AbsMembers(y, CI))
    decreases from, 0
  {
    assert x[0] in from.members;
    MemberFound(j, done, x);
    var i := FindKey(j.members, x[0].key, CI);
    Fails(j.members[i].value, x[0].value, y[0].value);
    SortedLists(j, done, x, y);
    BothHeads(x, y);
    EntryMissed(j, from, x, y, done + AbsMembers(y, CI), i);
  }

  lemma SortedLists(j: Json, done: map<string, Doc>, x: seq<Member<Json>>, y: seq<Member<Json>>)
    requires MemberState(j, done, x, y) && RegularValues(x) && RegularValues(y)
    ensures Sorted(x) && Sorted(y) && DistinctKeys(j.members, CI)
    ensures y != [] ==> Entry(done + AbsMembers(y, CI), Fold(y[0].key, CI)) == Some(Abs(y[0].value, CI))
  {
    if y != [] {
      SortedTail(y);
    }
  }

  lemma {:induction false} EntryMissed(j: Json, from: Json, x: seq<Member<Json>>, y: seq<Member<Json>>,
      target: map<string, Doc>, i: nat)
    requires x != [] && y != [] && MembersOf(x, from) && j.Obj? && DistinctKeys(j.members, CI)
    requires i < |j.members| && i == FindKey(j.members, x[0].key, CI)
    requires !Replaced(x[0].value, y[0].value) && SameKey(x[0].key, y[0].key, CI)
    requires !ComesOut(ApplyOps(j.members[i].value, Ops("", x[0].value, y[0].value, CI)), y[0].value)
    requires !Occurs(Fold(x[0].key, CI), x[1..], y[1..])
    requires (forall k :: k in LastKeys(x[1..], y[1..]) ==> Decodable(k))
    requires Entry(target, Fold(y[0].key, CI)) == Some(Abs(y[0].value, CI))
    ensures Misses(ApplyOps(j, Ops("/" + EncodeToken(x[0].key), x[0].value, y[0].value, CI)
                               + MemberOps("", from, x[1..], y[1..], CI)), target)
  {
    var k, f := x[0].key, Fold(x[0].key, CI);
    var ops, inner := Ops("/" + EncodeToken(k), x[0].value, y[0].value, CI), Ops("", x[0].value, y[0].value, CI);
    var rest := MemberOps("", from, x[1..], y[1..], CI);
    NestedOutcome(j, k, x[0].value, y[0].value);
    AvoidsOthers(f, x[1..], y[1..]);
    hide EncodeToken;
    hide Ops;
    hide MemberOps;
    hide Avoids;
    hide LastKeys;
    hide Decodable;
    hide Replaced;
    hide Abs;
    hide ApplyOps;
    var r := ApplyOps(j.members[i].value, inner);
    if r.status == 0 {
      var left := ApplyOps(j, ops).doc;
      EntryAfter(j, k, r.doc);
      WalkKept(left, from, x[1..], y[1..], f);
    }
    MissesConcat(j, ops, rest, target);
  }

  /** Patching inside a member. */
  lemma NestedOutcome(j: Json, k: string, from: Json, to: Json)
    requires j.Obj? && FindKey(j.members, k, CI) < |j.members| && !Replaced(from, to)
    ensures var i := FindKey(j.members, k, CI);
      var r := ApplyOps(j.members[i].value, Ops("", from, to, CI));
      ApplyOps(j, Ops("/" + EncodeToken(k), from, to, CI)) == Outcome(r.status, Obj(WithValue(j.members, i, r.doc)))
  {
    hide EncodeToken;
    hide Ops;
    hide Replaced;
    var head, ops := "/" + EncodeToken(k), Ops("", from, to, CI);
    UnderOps(head, "", from, to, CI);
    assert head + "" == head;
    ReplacedOps(from, to);
    OpsBelow(j, k, FindKey(j.members, k, CI), ops);
  }

  lemma EntryAfter(j: Json, k: string, v: Json)
    requires j.Obj? && DistinctKeys(j.members, CI) && FindKey(j.members, k, CI) < |j.members|
    ensures var ms := WithValue(j.members, FindKey(j.members, k, CI), v);
      DistinctKeys(ms, CI) && Entry(AbsMembers(ms, CI), Fold(k, CI)) == Some(Abs(v, CI))
  {
    var i := FindKey(j.members, k, CI);
    DistinctWithValue(j.members, i, v, CI);
    AbsWithValue(j.members, i, v, CI);
  }

  // ---- arrays ----

  /** If the condition holds for the elements still to come, the array comes out right. */
  lemma {:induction false} ElemsWork(j: Json, from: Json, to: Json, i: nat)
    requires j.Arr? && from.Arr? && to.Arr? && Regular(from, CI) && Regular(to, CI)
    requires i <= |from.elems| && ElemState(j.elems, from, to, i)
    requires forall k :: i <= k < |from.elems| && k < |to.elems| ==> Survivable(from.elems[k], to.elems[k])
    ensures Turns(j, ElemOps("", from, to, i, CI), to)
    decreases from, 1, |to.elems| - i
  {
    hide Abs;
    hide Digits;
    hide EncodeToken;
    hide ApplyOps;
    hide Ops;
    hide Survivable;
    if i < |from.elems| && i < |to.elems| {
      var ops := Ops("/" + Digits(i), from.elems[i], to.elems[i], CI);
      RootDigits(i);
      ElemWorks(j, from, to, i);
      var r := ApplyOps(j, ops);
      ElemsWork(r.doc, from, to, i + 1);
      ApplyConcat(j, ops, ElemOps("", from, to, i + 1, CI));
    } else {
      ElemFinish(j, from, to, i);
    }
  }

  lemma {:induction false} ElemWorks(j: Json, from: Json, to: Json, i: nat)
    requires j.Arr? && from.Arr? && to.Arr? && Regular(from, CI) && Regular(to, CI)
    requires i < |from.elems| && i < |to.elems|
    requires ElemState(j.elems, from, to, i) && Survivable(from.elems[i], to.elems[i])
    ensures var r := ApplyOps(j, Ops("/" + Digits(i), from.elems[i], to.elems[i], CI));
      r.status == 0 && r.doc.Arr? && ElemState(r.doc.elems, from, to, i + 1)
    decreases from, 0
  {
    hide Digits;
    hide EncodeToken;
    hide ApplyOps;
    hide Ops;
    hide Survivable;
    RoundTrip(j.elems[i], from.elems[i], to.elems[i]);
    PatchElem(j, i, from.elems[i], to.elems[i]);
    ElemAdvance(j.elems, from, to, i, ApplyOps(j, Ops("/" + Digits(i), from.elems[i], to.elems[i], CI)).doc.elems);
  }

  /** If the operations succeed, there still is an array with the old element at `k`. */
  ghost predicate ElemKept(es: seq<Json>, r: Outcome, k: nat)
    requires k < |es|
  {
    r.status == 0 ==> r.doc.Arr? && k < |r.doc.elems| && r.doc.elems[k] == es[k]
  }

  /** Patching one element. */
  lemma ElemOutcome(j: Json, i: nat, from: Json, to: Json)
    requires j.Arr? && |j.elems| <= SIZE_MAX && i < |j.elems|
    ensures var r := ApplyOps(j.elems[i], Ops("", from, to, CI));
      ApplyOps(j, Ops("/" + Digits(i), from, to, CI)) == Outcome(r.status, Arr(j.elems[i := r.doc]))
  {
    hide Ops;
    hide Digits;
    hide EncodeToken;
    hide Replaced;
    hide ApplyOps;
    hide ApplyOp;
    hide Under;
    hide AllBelow;
    var head, ops := "/" + Digits(i), Ops("", from, to, CI);
    DigitsToken(i);
    UnderOps(head, "", from, to, CI);
    assert head + "" == head;
    ReplacedOps(from, to);
    if Replaced(from, to) {
      ElemReplaced(j, i, to);
    } else {
      OpsBelow(j, Digits(i), i, ops);
    }
  }

  lemma ElemReplaced(j: Json, i: nat, v: Json)
    requires j.Arr? && |j.elems| <= SIZE_MAX && i < |j.elems|
    ensures ApplyOps(j.elems[i], [ReplaceOp("", v)]) == Outcome(0, v)
    ensures ApplyOps(j, Under("/" + Digits(i), [ReplaceOp("", v)])) == Outcome(0, Arr(j.elems[i := v]))
  {
    hide Digits;
    hide EncodeToken;
    hide ApplyOps;
    var head := "/" + Digits(i);
    DigitsToken(i);
    UnderOne(head, ReplaceOp("", v));
    assert head + "" == head;
    hide Under;
    ReplaceElemHere(j, i, v);
    ApplyOne(j.elems[i], ReplaceOp("", v));
  }

  /** The operations for later elements keep an earlier one. */
  lemma {:induction false} LaterElems(j: Json, from: Json, to: Json, i: nat, k: nat)
    requires j.Arr? && from.Arr? && to.Arr? && |j.elems| == |from.elems| <= SIZE_MAX
    requires k < i <= |from.elems| && i <= |to.elems|
    ensures ElemKept(j.elems, ApplyOps(j, ElemOps("", from, to, i, CI)), k)
    decreases |to.elems| - i
  {
    hide Digits;
    hide ApplyOps;
    hide Ops;
    hide Removals;
    hide Additions;
    if i < |from.elems| && i < |to.elems| {
      var ops, rest := Ops("/" + Digits(i), from.elems[i], to.elems[i], CI), ElemOps("", from, to, i + 1, CI);
      RootDigits(i);
      ElemOutcome(j, i, from.elems[i], to.elems[i]);
      var r := ApplyOps(j, ops);
      LaterElems(r.doc, from, to, i + 1, k);
      if r.status == 0 {
        ApplyConcat(j, ops, rest);
      } else {
        FailsFirst(j, ops, rest);
      }
    } else {
      RemoveRest(j, i, |from.elems| - i);
      AddRest(Arr(j.elems[..i]), to.elems[i..]);
      ApplyConcat(j, Removals("", i, |from.elems| - i), Additions("", to.elems[i..]));
    }
  }

  /** If the condition fails for some element, the array does not come out right. */
  lemma {:induction false} ElemsFail(j: Json, from: Json, to: Json, i: nat, bad: nat)
    requires j.Arr? && from.Arr? && to.Arr? && Regular(from, CI) && Regular(to, CI) && ElemState(j.elems, from, to, i)
    requires i <= bad < |from.elems| && bad < |to.elems| && !Survivable(from.elems[bad], to.elems[bad])
    ensures !ComesOut(ApplyOps(j, ElemOps("", from, to, i, CI)), to)
    decreases from, 1, |to.elems| - i
  {
    hide Abs;
    hide Digits;
    hide EncodeToken;
    hide ApplyOps;
    hide Ops;
    hide Survivable;
    var ops, rest := Ops("/" + Digits(i), from.elems[i], to.elems[i], CI), ElemOps("", from, to, i + 1, CI);
    RootDigits(i);
    var r := ApplyOps(j, ops);
    if Survivable(from.elems[i], to.elems[i]) {
      ElemWorks(j, from, to, i);
      ElemsFail(r.doc, from, to, i + 1, bad);
      ApplyConcat(j, ops, rest);
    } else {
      Fails(j.elems[i], from.elems[i], to.elems[i]);
      ElemMissed(j, from, to, i);
    }
  }

  lemma ElemMissed(j: Json, from: Json, to: Json, i: nat)
    requires j.Arr? && from.Arr? && to.Arr? && ElemState(j.elems, from, to, i) && i < |from.elems| && i < |to.elems|
    requires !ComesOut(ApplyOps(j.elems[i], Ops("", from.elems[i], to.elems[i], CI)), to.elems[i])
    ensures !ComesOut(ApplyOps(j, ElemOps("", from, to, i, CI)), to)
  {
    hide Abs;
    hide Digits;
    hide EncodeToken;
    hide ApplyOps;
    hide Ops;
    var ops, rest := Ops("/" + Digits(i), from.elems[i], to.elems[i], CI), ElemOps("", from, to, i + 1, CI);
    RootDigits(i);
    ElemOutcome(j, i, from.elems[i], to.elems[i]);
    var r := ApplyOps(j, ops);
    if r.status == 0 {
      ApplyConcat(j, ops, rest);
      LaterElems(r.doc, from, to, i + 1, i);
      var last := ApplyOps(r.doc, rest);
      if last.status == 0 {
        ElemsEqual(last.doc.elems, to.elems, CI);
      }
    } else {
      FailsFirst(j, ops, rest);
    }
  }

  // ---- documents ----

  /** Where the condition holds, the generated operations turn any document equal to `from` into one equal to `to`. */
  lemma {:induction false} RoundTrip(root: Json, from: Json, to: Json)
    requires Regular(root, CI) && Regular(from, CI) && Regular(to, CI)
    requires Survivable(from, to) && Abs(root, CI) == Abs(from, CI)
    ensures Turns(root, Ops("", from, to, CI), to)
    decreases from, 3
  {
    ApplyOne(root, ReplaceOp("", to));
    match (from, to) {
      case (Number(x), Number(y)) =>
        CompareDoubleInt(x, y);
      case (Arr(x), Arr(y)) =>
        ElemsEqual(root.elems, x, CI);
        ElemsWork(root, from, to, 0);
      case (Obj(x), Obj(y)) =>
        ObjectWorks(root, from, to);
      case _ =>
    }
  }

  /** What sorting the members gives the walk to start with. */
  lemma StartWalk(root: Json, from: Json, to: Json)
    requires root.Obj? && from.Obj? && to.Obj? && Regular(root, CI) && Regular(from, CI) && Regular(to, CI)
    requires Abs(root, CI) == Abs(from, CI)
    ensures var s, t := SortList(from.members, CI), SortList(to.members, CI);
      && MembersOf(s, from) && RegularValues(s) && RegularValues(t) && MemberState(root, map[], s, t)
      && AbsMembers(root.members, CI) == AbsMembers(s, CI) && AbsMembers(t, CI) == AbsMembers(to.members, CI)
      && map[] + AbsMembers(t, CI) == AbsMembers(t, CI)
  {
    ObjectsEqual(root.members, from.members, CI);
    SortedMembers(from, CI);
    SortedSide(from);
    SortedSide(to);
    hide SortList;
    hide AbsMembers;
    hide FindKey;
    hide RegularValues;
    hide MembersOf;
    hide Ascending;
    hide DistinctKeys;
    hide Regular;
    hide Abs;
    EmptyBefore(AbsMembers(SortList(from.members, CI), CI));
    EmptyBefore(AbsMembers(SortList(to.members, CI), CI));
  }

  lemma SortedSide(j: Json)
    requires j.Obj? && Regular(j, CI)
    ensures var s := SortList(j.members, CI);
      Ascending(s, CI) && DistinctKeys(s, CI) && AbsMembers(s, CI) == AbsMembers(j.members, CI) && RegularValues(s)
  {
    SortDistinct(j.members, CI);
    SortedRegular(j.members);
  }

  lemma EmptyBefore(m: map<string, Doc>)
    ensures map[] + m == m
  {
  }

  lemma {:induction false} ObjectWorks(root: Json, from: Json, to: Json)
    requires root.Obj? && from.Obj? && to.Obj? && Regular(root, CI) && Regular(from, CI) && Regular(to, CI)
    requires Survivable(from, to) && Abs(root, CI) == Abs(from, CI)
    ensures Turns(root, Ops("", from, to, CI), to)
    decreases from, 2
  {
    var s, t := SortList(from.members, CI), SortList(to.members, CI);
    StartWalk(root, from, to);
    hide SortList;
    hide RegularValues;
    hide MemberState;
    WalkWorks(root, from, map[], s, t);
    ObjectsEqual(ApplyOps(root, Ops("", from, to, CI)).doc.members, to.members, CI);
    hide AbsMembers;
    hide Regular;
  }

  /** Where the condition does not hold, they fail or leave another document. */
  lemma {:induction false} Fails(root: Json, from: Json, to: Json)
    requires Regular(root, CI) && Regular(from, CI) && Regular(to, CI)
    requires !Survivable(from, to) && Abs(root, CI) == Abs(from, CI)
    ensures !ComesOut(ApplyOps(root, Ops("", from, to, CI)), to)
    decreases from, 3
  {
    if from.Arr? {
      var bad :| 0 <= bad < |from.elems| && bad < |to.elems| && !Survivable(from.elems[bad], to.elems[bad]);
      ElemsEqual(root.elems, from.elems, CI);
      ElemsFail(root, from, to, 0, bad);
    } else {
      ObjectFails(root, from, to);
    }
  }

  lemma {:induction false} ObjectFails(root: Json, from: Json, to: Json)
    requires root.Obj? && from.Obj? && to.Obj? && Regular(root, CI) && Regular(from, CI) && Regular(to, CI)
    requires !Survivable(from, to) && Abs(root, CI) == Abs(from, CI)
    ensures !ComesOut(ApplyOps(root, Ops("", from, to, CI)), to)
    decreases from, 2
  {
    var s, t := SortList(from.members, CI), SortList(to.members, CI);
    StartWalk(root, from, to);
    SortedLists(root, map[], s, t);
    hide SortList;
    hide RegularValues;
    hide MemberState;
    hide Sorted;
    if bad :| bad in LastKeys(s, t) && !Decodable(bad) {
      MissedKeyFails(root, from, s, t, bad);
    } else {
      WalkFails(root, from, map[], s, t);
    }
    MissedObject(ApplyOps(root, Ops("", from, to, CI)), to);
  }

  lemma MissedObject(r: Outcome, to: Json)
    requires to.Obj? && Misses(r, AbsMembers(to.members, CI))
    ensures !ComesOut(r, to)
  {
    if r.status == 0 && r.doc.Obj? {
      ObjectsEqual(r.doc.members, to.members, CI);
    }
  }

  /** The patch made from two documents, applied to any document equal to the first, succeeds and
      leaves a document that compares equal to the second exactly if the keys it works on survive. */
  lemma PatchRoundTrip(root: Json, from: Json, to: Json)
    requires Regular(root, CI) && Regular(from, CI) && Regular(to, CI)
    requires CompareLookup(root, from, CI)
    ensures var r := ApplyPatches(root, GeneratedPatches(from, to), CI);
      && (r.status == 0 && CompareLookup(r.doc, to, CI) <==> Survivable(from, to))
      && Sound(r.doc, CI) && (CompareLookup(r.doc, to, CI) ==> Regular(r.doc, CI))
  {
    LookupCorrect(root, from, CI);
    OpsGenerated("", from, to, CI);
    ApplyComposedAll(root, Ops("", from, to, CI));
    GeneratedSound(root, from, to);
    var r := ApplyOps(root, Ops("", from, to, CI));
    if Survivable(from, to) {
      RoundTrip(root, from, to);
    } else {
      Fails(root, from, to);
    }
    hide Regular;
    hide Abs;
    hide CompareLookup;
    if CompareLookup(r.doc, to, CI) {
      EqualRegular(r.doc, to, CI);
    }
    if Regular(r.doc, CI) {
      LookupCorrect(r.doc, to, CI);
    }
  }

  lemma GeneratedSound(root: Json, from: Json, to: Json)
    requires Regular(root, CI) && Regular(to, CI)
    ensures Sound(ApplyPatches(root, GeneratedPatches(from, to), CI).doc, CI)
  {
    RegularSound(root, CI);
    RegularSound(to, CI);
    OpsSound("", from, to, CI);
    SoundComposed(Ops("", from, to, CI), CI);
    SoundAfterPatches(root, GeneratedPatches(from, to), CI);
  }

  /** From {} to {"a/b":null}: the one patch succeeds, and leaves {"a~/":null}. */
  lemma SlashFails()
    ensures var from, to := Obj([]), Obj([Member("a/b", Null)]);
      && Regular(from, CI) && Regular(to, CI) && !Survivable(from, to)
      && ApplyPatches(from, GeneratedPatches(from, to), CI) == Outcome(0, Obj([Member("a~/", Null)]))
      && !CompareLookup(Obj([Member("a~/", Null)]), to, CI)
  {
    var from, to := Obj([]), Obj([Member("a/b", Null)]);
    NewMemberOps(from, to, "a/b", Null);
    SlashNotDecodable();
    DecodeEncoded("a/b");
    AddLands(from, "a/b", Null);
    OpsGenerated("", from, to, CI);
    hide Survivable;
    hide Ops;
    hide EncodeToken;
    hide DecodeInPlace;
    ApplyComposedAll(from, Ops("", from, to, CI));
    OneMember("a/b", Null);
    OneMember("a~/", Null);
    SlashOrTilde();
    OtherKey("a~/", "a/b", Null);
  }

  lemma NewMemberOps(from: Json, to: Json, k: string, v: Json)
    requires from == Obj([]) && to == Obj([Member(k, v)])
    ensures Ops("", from, to, CI) == [AddOp("", k, v)]
    ensures Survivable(from, to) <==> Decodable(k)
  {
    var y := [Member(k, v)];
    assert y[1..] == [];
    SortedMembers(from, CI);
    assert MemberOps("", from, [], [], CI) == [];
    assert MembersSurvive(from, [], []);
    assert [AddOp("", k, v)] + [] == [AddOp("", k, v)];
  }

  lemma OneMember(k: string, v: Json)
    requires Regular(v, CI)
    ensures Regular(Obj([Member(k, v)]), CI)
    ensures AddChild(Obj([]), k, v, CI) == Outcome(0, Obj([Member(k, v)]))
  {
    var x := [Member(k, v)];
    assert x[1..] == [] && [] + x == x;
  }

  lemma OtherKey(k: string, l: string, v: Json)
    requires !SameKey(l, k, CI)
    ensures !CompareLookup(Obj([Member(k, v)]), Obj([Member(l, v)]), CI)
  {
    hide SameKey;
    var x, y := [Member(k, v)], [Member(l, v)];
    assert y[1..] == [] && FindKey(y, x[0].key, CI) == 1;
    assert !FoundIn(Obj(x), Obj(y), CI);
  }

  lemma SlashOrTilde()
    ensures !SameKey("a/b", "a~/", CI)
  {
    assert |Fold("a~/", CI)| == |Fold("a/b", CI)| == 3 && Fold("a~/", CI)[1] != Fold("a/b", CI)[1];
  }
}
