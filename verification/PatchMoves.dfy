/** What moving and copying do to a document, wherever in it: sections 4.4 and 4.5 of RFC 6902. */
module PatchMoves {
  import opened Text
  import opened Json
  import opened Pointer
  import opened PointerExact
  import opened Patch
  import opened PatchSteps
  import opened PatchSound
  import opened PatchInverse
  import opened PatchStandard

  // ---- an edit below a pointer ----

  /** The document with the one at pointer `b` replaced. */
  ghost function Placed(d: Doc, b: string, x: Doc, cs: bool): Doc
    requires Find(d, b, cs).Some?
    decreases |b|
  {
    if b == "" || b[0] != '/' then x
    else
      var t := Token(b[1..]);
      Update(d, t, Placed(Follow(d, t, cs).value, b[1 + |t|..], x, cs), cs)
  }

  /** One token of a pointer, seen by each of the three walks. */
  lemma OneStep(d: Doc, p: string, t: string, q: string, e: Edit, x: Doc, cs: bool)
    requires p != "" && p[0] == '/' && Token(p[1..]) == t && p[1 + |t|..] == q
    ensures var c := Follow(d, t, cs);
      && Find(d, p, cs) == (if c.None? then None else Find(c.value, q, cs))
      && (q != "" && c.Some? ==> Edited(d, p, e, cs) == Within(d, t, Edited(c.value, q, e, cs), cs))
      && (q == "" ==> Edited(d, p, e, cs) == EditHere(d, t, e, cs))
      && (Find(d, p, cs).Some? ==> Placed(d, p, x, cs) == Update(d, t, Placed(c.value, q, x, cs), cs))
  {
    FindStep(d, p, cs);
    EditStep(d, p, e, cs);
    hide Find;
    hide Edited;
    hide Follow;
    hide Token;
    hide Update;
    hide EditHere;
    hide Within;
  }

  lemma FindStep(d: Doc, p: string, cs: bool)
    requires p != "" && p[0] == '/'
    ensures var t := Token(p[1..]);
      var c := Follow(d, t, cs);
      Find(d, p, cs) == if c.None? then None else Find(c.value, p[1 + |t|..], cs)
  {
    hide Follow;
    hide Token;
  }

  lemma EditStep(d: Doc, p: string, e: Edit, cs: bool)
    requires p != "" && p[0] == '/'
    ensures var t := Token(p[1..]);
      var q, c := p[1 + |t|..], Follow(d, t, cs);
      && (q != "" && c.Some? ==> Edited(d, p, e, cs) == Within(d, t, Edited(c.value, q, e, cs), cs))
      && (q == "" ==> Edited(d, p, e, cs) == EditHere(d, t, e, cs))
  {
    hide Follow;
    hide Token;
    hide EditHere;
    hide Within;
  }

  lemma AtRoot(d: Doc, x: Doc, cs: bool)
    ensures Find(d, "", cs) == Some(d) && Placed(d, "", x, cs) == x
  {
  }

  lemma {:induction false} PlacedTwice(d: Doc, b: string, x: Doc, y: Doc, cs: bool)
    requires Find(d, b, cs).Some? && AtEnd(b)
    ensures Find(Placed(d, b, x, cs), b, cs) == Some(x)
    ensures Placed(Placed(d, b, x, cs), b, y, cs) == Placed(d, b, y, cs)
    decreases |b|
  {
    hide *;
    if b == "" {
      AtRoot(d, x, cs);
      AtRoot(x, y, cs);
      AtRoot(d, y, cs);
    } else {
      HeadSlash(b);
      Parts(b);
      var t := Token(b[1..]);
      var q := b[1 + |t|..];
      OneStep(d, b, t, q, Erase, x, cs);
      OneStep(d, b, t, q, Erase, y, cs);
      var c := Follow(d, t, cs).value;
      PlacedTwice(c, q, x, y, cs);
      FollowUpdate(d, t, Placed(c, q, x, cs), Placed(c, q, y, cs), cs);
      OneStep(Update(d, t, Placed(c, q, x, cs), cs), b, t, q, Erase, y, cs);
    }
  }

  ghost function PlacedAnswer(d: Doc, b: string, a: Answer, cs: bool): Answer
    requires Find(d, b, cs).Some?
  {
    if a.Done? then Done(Placed(d, b, a.doc, cs)) else a
  }

  /** A pointer and one token more. */
  lemma Longer(b: string, t: string)
    requires AtEnd(b) && '/' !in t
    ensures var p := b + "/" + t;
      var s := Token(p[1..]);
      && p[0] == '/'
      && (b == "" ==> s == t && p[1 + |s|..] == "")
      && (b != "" ==> s == Token(b[1..]) && |s| < |b| && p[1 + |s|..] == b[1 + |s|..] + "/" + t && AtEnd(b[1 + |s|..]))
  {
    var p := b + "/" + t;
    if b == "" {
      TokenThen(t, "");
      assert t + "" == t && p[1..] == t;
    } else {
      Parts(b);
      var s := Token(b[1..]);
      var q := b[1 + |s|..];
      assert p[1..] == s + (q + "/" + t);
      TokenThen(s, q + "/" + t);
      assert p[1 + |s|..] == q + "/" + t;
    }
  }

  /** An edit one token below a pointer edits the document there. */
  lemma {:induction false} EditBelow(d: Doc, b: string, t: string, e: Edit, cs: bool)
    requires AtEnd(b) && '/' !in t && Find(d, b, cs).Some?
    ensures var c := Find(d, b, cs).value;
      && Edited(d, b + "/" + t, e, cs) == PlacedAnswer(d, b, EditHere(c, t, e, cs), cs)
      && Find(d, b + "/" + t, cs) == Follow(c, t, cs)
    decreases |b|
  {
    hide *;
    var p, a := b + "/" + t, EditHere(Find(d, b, cs).value, t, e, cs);
    var x := if a.Done? then a.doc else d;
    Longer(b, t);
    if b == "" {
      AtRoot(d, x, cs);
      OneStep(d, p, t, "", e, x, cs);
      if Follow(d, t, cs).Some? {
        AtRoot(Follow(d, t, cs).value, x, cs);
      }
    } else {
      HeadSlash(b);
      var s := Token(b[1..]);
      var q := b[1 + |s|..];
      OneStep(d, b, s, q, e, x, cs);
      OneStep(d, p, s, q + "/" + t, e, x, cs);
      var c := Follow(d, s, cs).value;
      EditBelow(c, q, t, e, cs);
      Answers(c, q, a, x, cs);
      Withins(d, s, Edited(c, q + "/" + t, e, cs), cs);
    }
    Answers(d, b, a, x, cs);
  }

  lemma Withins(d: Doc, t: string, r: Answer, cs: bool)
    requires Follow(d, t, cs).Some?
    ensures Within(d, t, r, cs) == if r.Done? then Done(Update(d, t, r.doc, cs)) else r
  {
    hide Update;
  }

  lemma Answers(d: Doc, b: string, a: Answer, x: Doc, cs: bool)
    requires Find(d, b, cs).Some? && (a.Done? ==> x == a.doc)
    ensures PlacedAnswer(d, b, a, cs) == if a.Done? then Done(Placed(d, b, x, cs)) else a
  {
    hide Placed;
  }

  /** Moving the child `s` of the document at a pointer to the place `t` beside it. */
  lemma MoveBeside(d: Doc, b: string, s: string, t: string, cs: bool)
    requires AtEnd(b) && '/' !in s && '/' !in t && Find(d, b, cs).Some?
    ensures var c := Find(d, b, cs).value;
      var v := Follow(c, s, cs);
      Operation(d, Op(Move, b + "/" + t, None, Some(Str(b + "/" + s))), cs) ==
        if v.None? then Failed(5)
        else PlacedAnswer(d, b, InsertHere(EraseHere(c, s, cs), t, v.value, cs), cs)
  {
    hide Follow;
    hide Edited;
    hide Find;
    hide EraseHere;
    hide InsertHere;
    hide Placed;
    var c := Find(d, b, cs).value;
    var v := Follow(c, s, cs);
    EditBelow(d, b, s, Erase, cs);
    if v.Some? {
      var left := EraseHere(c, s, cs);
      var r := InsertHere(left, t, v.value, cs);
      PlacedTwice(d, b, left, if r.Done? then r.doc else left, cs);
      EditBelow(Placed(d, b, left, cs), b, t, Insert(v.value), cs);
    }
  }

  // ---- elements ----

  /** An element moved within its array: all elements are kept, the others in their order. */
  lemma MoveElement(d: Doc, b: string, s: string, t: string, cs: bool)
    requires AtEnd(b) && '/' !in s && '/' !in t && Find(d, b, cs).Some? && Find(d, b, cs).value.DArr?
    requires var es := Find(d, b, cs).value.es;
      Position(s).Some? && Position(s).value < |es| && (t == "-" || (Position(t).Some? && Position(t).value < |es|))
    ensures var es := Find(d, b, cs).value.es;
      var i, n := Position(s).value, if t == "-" then |es| - 1 else Position(t).value;
      var moved := Moved(es, i, n);
      && Operation(d, Op(Move, b + "/" + t, None, Some(Str(b + "/" + s))), cs) == Done(Placed(d, b, DArr(moved), cs))
      && moved[n] == es[i] && Without(moved, n) == Without(es, i) && multiset(moved) == multiset(es)
  {
    hide *;
    var es := Find(d, b, cs).value.es;
    var i, n := Position(s).value, if t == "-" then |es| - 1 else Position(t).value;
    var c := Find(d, b, cs).value;
    assert c == DArr(es);
    MoveBeside(d, b, s, t, cs);
    ElemEdits(es, s, t, cs);
    MovedElems(es, i, n);
    Answers(d, b, Done(DArr(Moved(es, i, n))), DArr(Moved(es, i, n)), cs);
  }

  /** The list with its element at `i` taken out and put in at `n`. */
  ghost function Moved(es: seq<Doc>, i: nat, n: nat): (r: seq<Doc>)
    requires i < |es| && n < |es|
    ensures |r| == |es|
  {
    var w := Without(es, i);
    w[..n] + [es[i]] + w[n..]
  }

  lemma ElemEdits(es: seq<Doc>, s: string, t: string, cs: bool)
    requires Position(s).Some? && Position(s).value < |es|
    requires t == "-" || (Position(t).Some? && Position(t).value < |es|)
    ensures var i, n := Position(s).value, if t == "-" then |es| - 1 else Position(t).value;
      && Follow(DArr(es), s, cs) == Some(es[i])
      && InsertHere(EraseHere(DArr(es), s, cs), t, es[i], cs) == Done(DArr(Moved(es, i, n)))
  {
    hide Position;
  }

  lemma MovedElems(es: seq<Doc>, i: nat, n: nat)
    requires i < |es| && n < |es|
    ensures var moved := Moved(es, i, n);
      moved[n] == es[i] && Without(moved, n) == Without(es, i) && multiset(moved) == multiset(es)
  {
    var w, moved := Without(es, i), Moved(es, i, n);
    assert w == w[..n] + w[n..];
    assert es == es[..i] + ([es[i]] + es[i + 1..]);
    assert moved[..n] == w[..n] && moved[n + 1..] == w[n..];
    assert Without(moved, n) == w[..n] + w[n..];
    assert multiset(moved) == multiset(w[..n]) + multiset([es[i]]) + multiset(w[n..]);
    assert multiset(w) == multiset(w[..n]) + multiset(w[n..]);
    assert multiset(w) == multiset(es[..i]) + multiset(es[i + 1..]);
    assert multiset(es) == multiset(es[..i]) + (multiset([es[i]]) + multiset(es[i + 1..]));
    assert multiset(moved) == multiset(w) + multiset([es[i]]);
    assert multiset(es) == multiset(w) + multiset([es[i]]);
  }

  // ---- members ----

  lemma {:induction false} UnescapesEncoded(k: string)
    ensures Unescaped(EncodeToken(k)) == Some(k)
  {
    if k == "" {
    } else {
      UnescapesEncoded(k[1..]);
      var e, r := EncodeToken(k), EncodeToken(k[1..]);
      assert k == [k[0]] + k[1..];
      if k[0] == '~' || k[0] == '/' {
        assert e[2..] == r;
      } else {
        assert e[1..] == r;
      }
    }
  }

  lemma PlainKey(ms: seq<Member<Json>>, k: string, removal: bool, cs: bool)
    requires Decodable(k) && (removal ==> FindKey(ms, k, CI) == FindKey(ms, k, cs))
    ensures '/' !in EncodeToken(k) && PlainHere(Obj(ms), EncodeToken(k), removal, cs)
  {
    UnescapesEncoded(k);
    DecodeEncoded(k);
    EncodeNoSlash(k);
  }

  lemma {:induction false} PlainBelow(j: Json, b: string, t: string, removal: bool, cs: bool)
    requires AtEnd(b) && '/' !in t && GetItem(j, b, cs).Some?
    requires PlainHere(At(j, GetItem(j, b, cs).value), t, removal, cs)
    ensures Plain(j, b + "/" + t, removal, cs)
    decreases |b|
  {
    hide PlainHere;
    hide Token;
    hide Step;
    hide Children;
    Longer(b, t);
    if b == "" {
    } else {
      var s := Token(b[1..]);
      var q := b[1 + |s|..];
      Parts(b);
      ItemThen(j, s, q, cs);
      var i := Step(j, s, cs).value;
      var g := GetItem(Children(j)[i], q, cs).value;
      BelowPath(j, i, g, Null);
      PlainBelow(Children(j)[i], q, t, removal, cs);
      PlainOn(j, b + "/" + t, s, q + "/" + t, removal, cs);
    }
  }

  lemma PlainOn(j: Json, p: string, s: string, q: string, removal: bool, cs: bool)
    requires p != "" && p[0] == '/' && Token(p[1..]) == s && p[1 + |s|..] == q != ""
    requires Step(j, s, cs).Some? && Plain(Children(j)[Step(j, s, cs).value], q, removal, cs)
    ensures Plain(j, p, removal, cs)
  {
    hide Token;
    hide Step;
    hide PlainHere;
    hide Children;
  }

  /** What a removal leaves keeps the way to the parent. */
  lemma DetachedBelow(j: Json, b: string, t: string, cs: bool)
    requires AtEnd(b) && '/' !in t && GetItem(j, b, cs).Some? && At(j, GetItem(j, b, cs).value).Obj?
    requires DetachPath(j, b + "/" + t, cs).Some?
    ensures var left := DetachPath(j, b + "/" + t, cs).value.1;
      GetItem(left, b, cs).Some? && At(left, GetItem(left, b, cs).value).Obj?
  {
    var path := GetItem(j, b, cs).value;
    var i := DetachesAt(j, b, t, cs);
    GetItemPut(j, b, cs, WithoutChild(At(j, path), i));
    PutAt(j, path, WithoutChild(At(j, path), i), Null);
    hide GetItem;
    hide At;
    hide Put;
  }

  lemma DetachesAt(j: Json, b: string, t: string, cs: bool) returns (i: nat)
    requires AtEnd(b) && '/' !in t && GetItem(j, b, cs).Some? && DetachPath(j, b + "/" + t, cs).Some?
    ensures var path := GetItem(j, b, cs).value;
      i < |Children(At(j, path))|
      && DetachPath(j, b + "/" + t, cs).value.1 == Put(j, path, WithoutChild(At(j, path), i))
  {
    SplitLast(b, t);
    SplitPath(j, b + "/" + t, Null, cs);
    i := DetachesIn(j, b, DecodeInPlace(t), cs);
    hide *;
  }

  lemma SplitLast(b: string, t: string)
    requires '/' !in t
    ensures var p := b + "/" + t; LastSlash(p) == |b| && p[..|b|] == b && p[|b| + 1..] == t
  {
    OneToken(t);
    SplitBehind(b, "/" + t);
    hide LastSlash;
    assert b + "/" + t == b + ("/" + t);
  }

  lemma DetachesIn(j: Json, b: string, last: string, cs: bool) returns (i: nat)
    requires GetItem(j, b, cs).Some? && DetachAt(j, b, last, cs).Some?
    ensures var path := GetItem(j, b, cs).value;
      i < |Children(At(j, path))|
      && DetachAt(j, b, last, cs).value.1 == Put(j, path, WithoutChild(At(j, path), i))
  {
    i := RemovalTarget(At(j, GetItem(j, b, cs).value), last).value;
  }

  /** After the removal of a member the parent is still there, so its other keys are plain too. */
  lemma PlainAfter(root: Json, b: string, s: string, k: string, cs: bool)
    requires AtEnd(b) && '/' !in s && GetItem(root, b, cs).Some? && At(root, GetItem(root, b, cs).value).Obj?
    requires Decodable(k)
    ensures var r := DetachPath(root, b + "/" + s, cs);
      r.Some? ==> Plain(r.value.1, b + "/" + EncodeToken(k), false, cs)
  {
    hide *;
    var r := DetachPath(root, b + "/" + s, cs);
    if r.Some? {
      DetachedBelow(root, b, s, cs);
      var left := r.value.1;
      var parent := At(left, GetItem(left, b, cs).value);
      PlainKey(parent.members, k, false, cs);
      assert parent == Obj(parent.members);
      PlainBelow(left, b, EncodeToken(k), false, cs);
    }
  }

  lemma SlashedEnd(b: string, t: string)
    requires AtEnd(b)
    ensures AtEnd(b + "/" + t)
  {
  }

  /** The members of an object under the keys that two tokens stand for. */
  lemma MemberEdits(m: map<string, Doc>, k: string, v: Doc, cs: bool)
    ensures var t := EncodeToken(k);
      && Follow(DObj(m), t, cs) == Entry(m, Fold(k, cs))
      && InsertHere(DObj(m), t, v, cs) == Done(DObj(m[Fold(k, cs) := v]))
      && (Fold(k, cs) in m ==> EraseHere(DObj(m), t, cs) == DObj(m - {Fold(k, cs)}))
  {
    UnescapesEncoded(k);
    hide Unescaped;
    hide EncodeToken;
    hide Fold;
  }

  /** Two members of one object, on documents. */
  lemma MoveAnswer(d: Doc, b: string, m: map<string, Doc>, f: string, k: string, cs: bool)
    requires AtEnd(b) && Find(d, b, cs) == Some(DObj(m))
    ensures var op := Op(Move, b + "/" + EncodeToken(k), None, Some(Str(b + "/" + EncodeToken(f))));
      var x, y := Fold(f, cs), Fold(k, cs);
      && Operation(d, op, cs) == (if x !in m then Failed(5) else Done(Placed(d, b, DObj((m - {x})[y := m[x]]), cs)))
      && (x !in m ==> Left(d, op, cs) == d)
  {
    hide *;
    var s, t, x := EncodeToken(f), EncodeToken(k), Fold(f, cs);
    NoSlashes(f);
    NoSlashes(k);
    MoveBeside(d, b, s, t, cs);
    MemberEdits(m, f, DNull, cs);
    EntryOf(m, x);
    if x in m {
      var e := DObj((m - {x})[Fold(k, cs) := m[x]]);
      MemberEdits(m - {x}, k, m[x], cs);
      Answers(d, b, Done(e), e, cs);
    } else {
      EditBelow(d, b, s, Erase, cs);
      EraseFails(DObj(m), s, cs);
      Answers(d, b, EditHere(DObj(m), s, Erase, cs), d, cs);
      MoveStays(d, b + "/" + s, b + "/" + t, cs);
    }
  }

  lemma NoSlashes(k: string)
    ensures '/' !in EncodeToken(k)
  {
    EncodeNoSlash(k);
  }

  lemma EraseFails(d: Doc, t: string, cs: bool)
    requires Follow(d, t, cs).None?
    ensures EditHere(d, t, Erase, cs) == Failed(13)
  {
  }

  lemma MeetsSame(r: Outcome, a: Answer, left: Doc, d: Doc, cs: bool)
    requires Meets(r, a, left, cs) && (a.Failed? ==> left == d)
    ensures Meets(r, a, d, cs)
  {
  }

  /** Moving a member of an object, anywhere in a document, to another key of the object: it is gone
      from the old key and stands under the new one, and all other members are kept. */
  lemma MoveMember(root: Json, b: string, f: string, k: string, cs: bool)
    requires Sound(root, cs) && AtEnd(b) && GetItem(root, b, cs).Some? && Decodable(f) && Decodable(k)
    requires var parent := At(root, GetItem(root, b, cs).value);
      parent.Obj? && FindKey(parent.members, f, CI) == FindKey(parent.members, f, cs)
    ensures Find(Abs(root, cs), b, cs).Some?
    ensures var op := Op(Move, b + "/" + EncodeToken(k), None, Some(Str(b + "/" + EncodeToken(f))));
      var d, m := Abs(root, cs), AbsMembers(At(root, GetItem(root, b, cs).value).members, cs);
      var x, y := Fold(f, cs), Fold(k, cs);
      var a := if x !in m then Failed(5) else Done(Placed(d, b, DObj((m - {x})[y := m[x]]), cs));
      Meets(ApplyOp(root, op, cs), a, d, cs)
  {
    var ms := At(root, GetItem(root, b, cs).value).members;
    var s, t := EncodeToken(f), EncodeToken(k);
    var op := Op(Move, b + "/" + t, None, Some(Str(b + "/" + s)));
    var d, m := Abs(root, cs), AbsMembers(ms, cs);
    assert At(root, GetItem(root, b, cs).value) == Obj(ms) && Abs(Obj(ms), cs) == DObj(m);
    hide *;
    PlainKey(ms, f, true, cs);
    PlainBelow(root, b, s, true, cs);
    PlainAfter(root, b, s, k, cs);
    FindMeets(root, b, cs);
    SlashedEnd(b, s);
    SlashedEnd(b, t);
    MoveOrdinary(root, b + "/" + s, b + "/" + t, cs);
    MoveAnswer(d, b, m, f, k, cs);
    MeetsSame(ApplyOp(root, op, cs), Operation(d, op, cs), Left(d, op, cs), d, cs);
  }

  lemma EntryOf(m: map<string, Doc>, x: string)
    ensures Entry(m, x) == if x in m then Some(m[x]) else None
  {
  }

  lemma MoveOrdinary(root: Json, from: string, path: string, cs: bool)
    requires Sound(root, cs) && AtEnd(from) && AtEnd(path) && Plain(root, from, true, cs)
    requires DetachPath(root, from, cs).Some? ==> Plain(DetachPath(root, from, cs).value.1, path, false, cs)
    ensures var op := Op(Move, path, None, Some(Str(from)));
      Meets(ApplyOp(root, op, cs), Operation(Abs(root, cs), op, cs), Left(Abs(root, cs), op, cs), cs)
  {
    OperationMeets(root, Op(Move, path, None, Some(Str(from))), cs);
    hide ApplyOp;
    hide Operation;
    hide Left;
    hide Meets;
  }

  /** A move that finds nothing leaves the document alone. */
  lemma MoveStays(d: Doc, from: string, path: string, cs: bool)
    requires Edited(d, from, Erase, cs).Failed?
    ensures Left(d, Op(Move, path, None, Some(Str(from))), cs) == d
  {
  }

  /** Copying an item, from anywhere, to a key of an object anywhere: everything is kept beside that key,
      the item copied included. */
  lemma CopyMember(root: Json, from: string, b: string, k: string, cs: bool)
    requires Sound(root, cs) && AtEnd(b) && AtEnd(from) && GetItem(root, b, cs).Some? && Decodable(k)
    requires At(root, GetItem(root, b, cs).value).Obj?
    ensures Find(Abs(root, cs), b, cs).Some?
    ensures var op := Op(Copy, b + "/" + EncodeToken(k), None, Some(Str(from)));
      var d, m := Abs(root, cs), AbsMembers(At(root, GetItem(root, b, cs).value).members, cs);
      var v := Find(d, from, cs);
      var a := if v.None? then Failed(5) else Done(Placed(d, b, DObj(m[Fold(k, cs) := v.value]), cs));
      Meets(ApplyOp(root, op, cs), a, d, cs)
  {
    var ms := At(root, GetItem(root, b, cs).value).members;
    var t := EncodeToken(k);
    var d, m := Abs(root, cs), AbsMembers(ms, cs);
    assert At(root, GetItem(root, b, cs).value) == Obj(ms) && Abs(Obj(ms), cs) == DObj(m);
    hide *;
    PlainKey(ms, k, false, cs);
    PlainBelow(root, b, t, false, cs);
    FindMeets(root, b, cs);
    SlashedEnd(b, t);
    CopyOrdinary(root, from, b + "/" + t, cs);
    var v := Find(d, from, cs);
    if v.Some? {
      var e := DObj(m[Fold(k, cs) := v.value]);
      EditBelow(d, b, t, Insert(v.value), cs);
      MemberEdits(m, k, v.value, cs);
      InsertEdit(DObj(m), t, v.value, cs);
      Answers(d, b, Done(e), e, cs);
    }
  }

  lemma InsertEdit(d: Doc, t: string, v: Doc, cs: bool)
    ensures EditHere(d, t, Insert(v), cs) == InsertHere(d, t, v, cs)
  {
  }

  lemma CopyOrdinary(root: Json, from: string, path: string, cs: bool)
    requires Sound(root, cs) && AtEnd(from) && AtEnd(path) && Plain(root, path, false, cs)
    ensures var op := Op(Copy, path, None, Some(Str(from)));
      var d := Abs(root, cs);
      var v := Find(d, from, cs);
      Meets(ApplyOp(root, op, cs), if v.None? then Failed(5) else Edited(d, path, Insert(v.value), cs), d, cs)
  {
    OperationMeets(root, Op(Copy, path, None, Some(Str(from))), cs);
    hide ApplyOp;
    hide Find;
    hide Edited;
    hide Meets;
    hide Plain;
    hide Abs;
    hide Sound;
  }

  /** A move that fails at its target has taken the item out by then: the item is lost. */
  lemma FailedMove(cs: bool)
    ensures var root := Obj([Member("a", Number(1.0))]);
      ApplyOp(root, Op(Move, "/b/c", None, Some(Str("/a"))), cs) == Outcome(9, Obj([]))
  {
    var ms := [Member("a", Number(1.0))];
    assert "/a" == "/" + "a" + "" && "/b/c" == "/" + "b" + "/c";
    DetachDown(Obj(ms), "a", "", cs);
    AddDown(Obj([]), "b", "/c", Number(1.0), cs);
    PlainText("a");
    assert FindKey(ms, "a", CI) == 0;
    assert Without(ms, 0) == [];
    hide DecodeInPlace;
    hide LastSlash;
    hide AddPath;
    hide DetachPath;
  }
}
