/** What generated operations leave alone: an operation for a member changes the entry its key lands
    on, or fails; every other entry of the object stays as it is. */
module PatchFrame {
  import opened Text
  import opened Json
  import opened Pointer
  import opened Patch
  import opened PatchGen
  import opened PatchKeys
  import opened PatchSteps

  /** If the operations succeed, there still is an object with distinct keys, and the entry under the
      folded key `f` is the old one. */
  ghost predicate Kept(ms: seq<Member<Json>>, r: Outcome, f: string) {
    r.status == 0 ==>
      r.doc.Obj? && DistinctKeys(r.doc.members, CI)
      && Entry(AbsMembers(r.doc.members, CI), f) == Entry(AbsMembers(ms, CI), f)
  }

  lemma KeptTwice(ms: seq<Member<Json>>, a: Outcome, b: Outcome, f: string)
    requires a.status == 0 && Kept(ms, a, f) && (a.doc.Obj? ==> Kept(a.doc.members, b, f))
    ensures Kept(ms, b, f)
  {
  }

  /** A path of one token works on the place its key lands on. */
  lemma HereLanded(j: Json, tok: string, v: Json)
    ensures DetachPath(j, "/" + EncodeToken(tok), CI) == DetachAt(j, "", Landed(tok), CI)
    ensures AddPath(j, "/" + EncodeToken(tok), v, CI) == AddAt(j, "", Landed(tok), v, CI)
  {
    SplitHere(tok);
    hide EncodeToken;
    hide LastSlash;
    hide DecodeInPlace;
    hide DetachAt;
    hide AddAt;
    var p := "/" + EncodeToken(tok);
    assert p[..0] == "";
  }

  /** Taking out the member of another key. */
  lemma WithoutKept(ms: seq<Member<Json>>, t: string, f: string)
    requires DistinctKeys(ms, CI) && FindKey(ms, t, CI) < |ms| && Fold(t, CI) != f
    ensures Kept(ms, Outcome(0, Obj(Without(ms, FindKey(ms, t, CI)))), f)
    ensures FindKey(Without(ms, FindKey(ms, t, CI)), t, CI) == |ms| - 1
  {
    var i := FindKey(ms, t, CI);
    DistinctWithout(ms, i, CI);
    AbsWithout(ms, i, CI);
    FindWithout(ms, i, t, CI);
  }

  lemma AppendKept(ms: seq<Member<Json>>, t: string, v: Json, f: string)
    requires DistinctKeys(ms, CI) && FindKey(ms, t, CI) == |ms| && Fold(t, CI) != f
    ensures Kept(ms, Outcome(0, Obj(ms + [Member(t, v)])), f)
  {
    DistinctAppend(ms, Member(t, v), CI);
    AbsAppend(ms, Member(t, v), CI);
  }

  lemma AddChildKept(ms: seq<Member<Json>>, t: string, v: Json, f: string)
    requires DistinctKeys(ms, CI) && Fold(t, CI) != f
    ensures Kept(ms, AddChild(Obj(ms), t, v, CI), f)
  {
    var i := FindKey(ms, t, CI);
    if i < |ms| {
      var rest := Without(ms, i);
      WithoutKept(ms, t, f);
      hide Without;
      hide FindKey;
      hide Fold;
      hide AbsMembers;
      hide DistinctKeys;
      assert |rest| == |ms| - 1;
      AppendKept(rest, t, v, f);
      KeptTwice(ms, Outcome(0, Obj(rest)), AddChild(Obj(ms), t, v, CI), f);
    } else {
      AppendKept(ms, t, v, f);
    }
  }

  lemma AddKept(j: Json, k: string, v: Json, f: string)
    requires j.Obj? && DistinctKeys(j.members, CI) && Fold(Landed(k), CI) != f
    ensures Kept(j.members, ApplyOps(j, [AddOp("", k, v)]), f)
  {
    AddChildKept(j.members, Landed(k), v, f);
    hide Landed;
    hide AddChild;
    hide Kept;
    AddLands(j, k, v);
  }

  /** An addition to an object happens where its key lands. */
  lemma AddLands(j: Json, k: string, v: Json)
    requires j.Obj?
    ensures ApplyOps(j, [AddOp("", k, v)]) == AddChild(j, Landed(k), v, CI)
  {
    hide EncodeToken;
    hide Landed;
    hide AddPath;
    HereLanded(j, k, v);
    RootPath(k);
    ApplyOne(j, AddOp("", k, v));
    assert GetItem(j, "", CI) == Some([]);
    assert AddAt(j, "", Landed(k), v, CI) == AddChild(j, Landed(k), v, CI);
  }

  /** A removal fails or takes one member out. */
  lemma DetachKept(j: Json, k: string, f: string)
    requires j.Obj? && DistinctKeys(j.members, CI) && Fold(Landed(k), CI) != f
    ensures match DetachPath(j, "/" + EncodeToken(k), CI)
      case None => true
      case Some(p) => Kept(j.members, Outcome(0, p.1), f)
  {
    HereLanded(j, k, Null);
    hide EncodeToken;
    hide Landed;
    hide Fold;
    hide Kept;
    hide DetachPath;
    hide FindKey;
    assert GetItem(j, "", CI) == Some([]);
    if FindKey(j.members, Landed(k), CI) < |j.members| {
      WithoutKept(j.members, Landed(k), f);
    }
  }

  lemma RemoveKept(j: Json, k: string, f: string)
    requires j.Obj? && DistinctKeys(j.members, CI) && Fold(Landed(k), CI) != f
    ensures Kept(j.members, ApplyOps(j, [RemoveOp("", k)]), f)
  {
    DetachKept(j, k, f);
    RootPath(k);
    ApplyOne(j, RemoveOp("", k));
    hide EncodeToken;
    hide Landed;
    hide DetachPath;
  }

  lemma ReplaceKept(j: Json, k: string, v: Json, f: string)
    requires j.Obj? && DistinctKeys(j.members, CI) && Fold(Landed(k), CI) != f
    ensures Kept(j.members, ApplyOps(j, [ReplaceOp("/" + EncodeToken(k), v)]), f)
  {
    DetachKept(j, k, f);
    ApplyOne(j, ReplaceOp("/" + EncodeToken(k), v));
    var d := DetachPath(j, "/" + EncodeToken(k), CI);
    hide EncodeToken;
    hide DetachPath;
    hide AddPath;
    if d.Some? {
      var left := d.value.1;
      assert left.Obj? && DistinctKeys(left.members, CI);
      AddLanded(left, k, v, f);
      KeptTwice(j.members, Outcome(0, left), AddPath(left, "/" + EncodeToken(k), v, CI), f);
    }
  }

  lemma AddLanded(j: Json, k: string, v: Json, f: string)
    requires j.Obj? && DistinctKeys(j.members, CI) && Fold(Landed(k), CI) != f
    ensures Kept(j.members, AddPath(j, "/" + EncodeToken(k), v, CI), f)
  {
    AddChildKept(j.members, Landed(k), v, f);
    HereLanded(j, k, v);
    hide EncodeToken;
    hide Landed;
    hide AddChild;
    hide AddPath;
    hide Kept;
    assert GetItem(j, "", CI) == Some([]);
    assert AddAt(j, "", Landed(k), v, CI).status == AddChild(j, Landed(k), v, CI).status;
  }

  /** Below a member that is not there every operation fails. */
  lemma NoMember(j: Json, c: string, rest: string)
    requires j.Obj? && FindKey(j.members, c, CI) == |j.members| && AtEnd(rest)
    ensures GetItem(j, "/" + EncodeToken(c) + rest, CI) == None
  {
    FindEncoded(j.members, c, rest, CI);
    hide EncodeToken;
    hide FindToken;
    hide FindKey;
    var p := "/" + EncodeToken(c) + rest;
    assert p[0] == '/' && p[1..] == EncodeToken(c) + rest;
  }

  lemma NoMemberFails(j: Json, c: string, op: Op)
    requires j.Obj? && FindKey(j.members, c, CI) == |j.members|
    requires Generated(op) && op.path != "" && op.path[0] == '/'
    ensures ApplyOp(j, op.(path := "/" + EncodeToken(c) + op.path), CI).status != 0
  {
    var head := "/" + EncodeToken(c);
    SplitBehind(head, op.path);
    NoMember(j, c, op.path[..LastSlash(op.path)]);
    hide EncodeToken;
    hide LastSlash;
    hide DecodeInPlace;
    hide GetItem;
    hide FindKey;
    assert (head + op.path)[..LastSlash(head + op.path)] == head + op.path[..LastSlash(op.path)];
  }

  /** Patching inside a member changes that member alone. */
  lemma NestedKept(j: Json, c: string, from: Json, to: Json, f: string)
    requires j.Obj? && DistinctKeys(j.members, CI) && !Replaced(from, to) && Fold(c, CI) != f
    ensures Kept(j.members, ApplyOps(j, Ops("/" + EncodeToken(c), from, to, CI)), f)
  {
    hide EncodeToken;
    hide Ops;
    hide Replaced;
    var head, ops := "/" + EncodeToken(c), Ops("", from, to, CI);
    var i := FindKey(j.members, c, CI);
    UnderOps(head, "", from, to, CI);
    assert head + "" == head;
    ReplacedOps(from, to);
    if i < |j.members| {
      OpsBelow(j, c, i, ops);
      var v := ApplyOps(j.members[i].value, ops).doc;
      DistinctWithValue(j.members, i, v, CI);
      AbsWithValue(j.members, i, v, CI);
    } else if ops != [] {
      NoMemberFails(j, c, ops[0]);
    }
  }
}
