/** What the generated operations do when they are applied one after the other. Keys are compared
    ignoring case, the rule of the library's default entry points. */
module PatchSteps {
  import opened Text
  import opened Json
  import opened Sorting
  import opened Compare
  import opened Pointer
  import opened Patch
  import opened PatchGen

  // ---- paths under a prefix ----

  function Under(p: string, ops: seq<Op>): (r: seq<Op>)
    ensures |r| == |ops|
  {
    if ops == [] then [] else [ops[0].(path := p + ops[0].path)] + Under(p, ops[1..])
  }

  lemma {:induction false} UnderConcat(p: string, a: seq<Op>, b: seq<Op>)
    ensures Under(p, a + b) == Under(p, a) + Under(p, b)
  {
    if a == [] {
      assert a + b == b;
    } else {
      assert (a + b)[1..] == a[1..] + b;
      UnderConcat(p, a[1..], b);
    }
  }

  lemma UnderOne(p: string, op: Op)
    ensures Under(p, [op]) == [op.(path := p + op.path)]
  {
    assert [op][1..] == [];
  }

  lemma {:induction false} UnderRemovals(p: string, q: string, i: nat, n: nat)
    ensures Removals(p + q, i, n) == Under(p, Removals(q, i, n))
  {
    if n == 0 {
    } else {
      UnderRemovals(p, q, i, n - 1);
      UnderOne(p, RemoveOp(q, Digits(i)));
      UnderConcat(p, [RemoveOp(q, Digits(i))], Removals(q, i, n - 1));
      assert p + q + "/" + EncodeToken(Digits(i)) == p + (q + "/" + EncodeToken(Digits(i)));
    }
  }

  lemma {:induction false} UnderAdditions(p: string, q: string, vs: seq<Json>)
    ensures Additions(p + q, vs) == Under(p, Additions(q, vs))
  {
    if vs == [] {
    } else {
      UnderAdditions(p, q, vs[1..]);
      UnderOne(p, AddOp(q, "-", vs[0]));
      UnderConcat(p, [AddOp(q, "-", vs[0])], Additions(q, vs[1..]));
      assert p + q + "/" + EncodeToken("-") == p + (q + "/" + EncodeToken("-"));
    }
  }

  /** The operations for a path are those for the empty path, moved under it. */
  lemma {:induction false} UnderOps(p: string, q: string, from: Json, to: Json, cs: bool)
    ensures Ops(p + q, from, to, cs) == Under(p, Ops(q, from, to, cs))
    decreases from, 1
  {
    UnderOne(p, ReplaceOp(q, to));
    match (from, to) {
      case (Arr(x), Arr(y)) =>
        UnderElems(p, q, from, to, 0, cs);
      case (Obj(x), Obj(y)) =>
        SortedMembers(from, cs);
        UnderMembers(p, q, from, SortList(x, cs), SortList(y, cs), cs);
      case _ =>
    }
  }

  lemma {:induction false} UnderElems(p: string, q: string, from: Json, to: Json, i: nat, cs: bool)
    requires from.Arr? && to.Arr? && i <= |from.elems| && i <= |to.elems|
    ensures ElemOps(p + q, from, to, i, cs) == Under(p, ElemOps(q, from, to, i, cs))
    decreases from, 0, |to.elems| - i
  {
    hide Ops;
    hide Under;
    hide Digits;
    if i < |from.elems| && i < |to.elems| {
      assert p + q + "/" + Digits(i) == p + (q + "/" + Digits(i));
      UnderOps(p, q + "/" + Digits(i), from.elems[i], to.elems[i], cs);
      UnderElems(p, q, from, to, i + 1, cs);
      UnderConcat(p, Ops(q + "/" + Digits(i), from.elems[i], to.elems[i], cs), ElemOps(q, from, to, i + 1, cs));
    } else {
      UnderRemovals(p, q, i, |from.elems| - i);
      UnderAdditions(p, q, to.elems[i..]);
      UnderConcat(p, Removals(q, i, |from.elems| - i), Additions(q, to.elems[i..]));
    }
  }

  lemma {:induction false} UnderMembers(p: string, q: string, from: Json, x: seq<Member<Json>>, y: seq<Member<Json>>,
      cs: bool)
    requires MembersOf(x, from)
    ensures MemberOps(p + q, from, x, y, cs) == Under(p, MemberOps(q, from, x, y, cs))
    decreases from, 0, |x| + |y|
  {
    hide KeyLess;
    hide EncodeToken;
    hide Ops;
    assert Under(p, []) == [];
    hide Under;
    if x == [] && y == [] {
    } else if x == [] || (y != [] && KeyLess(y[0].key, x[0].key, cs)) {
      var op := AddOp(q, y[0].key, y[0].value);
      UnderMembers(p, q, from, x, y[1..], cs);
      UnderOne(p, op);
      UnderConcat(p, [op], MemberOps(q, from, x, y[1..], cs));
      assert p + q + "/" + EncodeToken(y[0].key) == p + (q + "/" + EncodeToken(y[0].key));
    } else if y == [] || KeyLess(x[0].key, y[0].key, cs) {
      var op := RemoveOp(q, x[0].key);
      UnderMembers(p, q, from, x[1..], y, cs);
      UnderOne(p, op);
      UnderConcat(p, [op], MemberOps(q, from, x[1..], y, cs));
      assert p + q + "/" + EncodeToken(x[0].key) == p + (q + "/" + EncodeToken(x[0].key));
    } else {
      assert x[0] in from.members;
      var r := q + "/" + EncodeToken(x[0].key);
      assert p + q + "/" + EncodeToken(x[0].key) == p + r;
      UnderOps(p, r, x[0].value, y[0].value, cs);
      UnderMembers(p, q, from, x[1..], y[1..], cs);
      hide Ops;
      UnderConcat(p, Ops(r, x[0].value, y[0].value, cs), MemberOps(q, from, x[1..], y[1..], cs));
    }
  }

  // ---- an operation below a child works on the child alone ----

  /** The raw token `tok` leads from `j` to its child number `i`. */
  ghost predicate Leads(j: Json, tok: string, i: nat) {
    && i < |Children(j)|
    && (j.Arr? ==> tok == Digits(i) && i <= SIZE_MAX)
    && (j.Obj? ==> FindKey(j.members, tok, CI) == i)
  }

  lemma DigitsToken(n: nat)
    ensures EncodeToken(Digits(n)) == Digits(n) && Decodable(Digits(n)) && Digits(n) != "-"
  {
    DigitsInRange(n);
    PlainDecodable(Digits(n));
  }

  lemma LeadsStep(j: Json, tok: string, i: nat, rest: string)
    requires Leads(j, tok, i) && AtEnd(rest)
    ensures Step(j, EncodeToken(tok) + rest, CI) == Some(i)
    ensures SkipToken(EncodeToken(tok) + rest) == rest
  {
    EncodeNoSlash(tok);
    SkipText(EncodeToken(tok), rest);
    if j.Arr? {
      DigitsToken(i);
      DecodeDigits(i, rest);
    } else {
      FindEncoded(j.members, tok, rest, CI);
    }
  }

  lemma LeadsItem(j: Json, tok: string, i: nat, rest: string)
    requires Leads(j, tok, i) && AtEnd(rest)
    ensures GetItem(j, "/" + EncodeToken(tok) + rest, CI) == Cons(i, GetItem(Children(j)[i], rest, CI))
  {
    hide EncodeToken;
    hide Step;
    hide SkipToken;
    hide Leads;
    LeadsStep(j, tok, i, rest);
    var p := "/" + EncodeToken(tok) + rest;
    assert p[0] == '/' && p[1..] == EncodeToken(tok) + rest;
  }

  lemma LeadsSetChild(j: Json, tok: string, i: nat, v: Json)
    requires Leads(j, tok, i)
    ensures Leads(SetChild(j, i, v), tok, i)
  {
    if j.Obj? {
      FindWithValue(j.members, i, v, tok, CI);
    }
  }

  lemma {:induction false} LastSlashBehind(a: string, b: string)
    ensures LastSlash(a + b) == if LastSlash(b) >= 0 then |a| + LastSlash(b) else LastSlash(a)
    decreases |b|
  {
    if b == "" {
      assert a + b == a;
    } else {
      assert (a + b)[..|a + b| - 1] == a + b[..|b| - 1];
      LastSlashBehind(a, b[..|b| - 1]);
    }
  }

  lemma {:induction false} SlashFound(s: string, i: nat)
    requires i < |s| && s[i] == '/'
    ensures LastSlash(s) >= i
  {
    if s[|s| - 1] != '/' {
      SlashFound(s[..|s| - 1], i);
    }
  }

  /** Splitting a path that goes on behind a first token. */
  lemma SplitBehind(head: string, rest: string)
    requires rest != "" && rest[0] == '/'
    ensures var s, t := LastSlash(head + rest), LastSlash(rest);
      && t >= 0 && s == |head| + t
      && (head + rest)[..s] == head + rest[..t] && (head + rest)[s + 1..] == rest[t + 1..] && AtEnd(rest[..t])
  {
    SlashFound(rest, 0);
    LastSlashBehind(head, rest);
  }

  lemma BelowPath(j: Json, i: nat, q: seq<nat>, v: Json)
    requires i < |Children(j)| && ValidPath(Children(j)[i], q)
    ensures ValidPath(j, [i] + q) && At(j, [i] + q) == At(Children(j)[i], q)
    ensures Put(j, [i] + q, v) == SetChild(j, i, Put(Children(j)[i], q, v))
  {
    assert ([i] + q)[1..] == q;
  }

  lemma DetachAtBelow(j: Json, tok: string, i: nat, parent: string, last: string)
    requires Leads(j, tok, i) && AtEnd(parent)
    ensures DetachAt(j, "/" + EncodeToken(tok) + parent, last, CI) ==
      match DetachAt(Children(j)[i], parent, last, CI)
      case None => None
      case Some((item, left)) => Some((item, SetChild(j, i, left)))
  {
    hide EncodeToken;
    LeadsItem(j, tok, i, parent);
    match GetItem(Children(j)[i], parent, CI) {
      case None =>
      case Some(q) =>
        var p := At(Children(j)[i], q);
        BelowPath(j, i, q, p);
        match RemovalTarget(p, last) {
          case None =>
          case Some(k) =>
            BelowPath(j, i, q, WithoutChild(p, k));
        }
    }
  }

  lemma DetachBelow(j: Json, tok: string, i: nat, rest: string)
    requires Leads(j, tok, i) && rest != "" && rest[0] == '/'
    ensures DetachPath(j, "/" + EncodeToken(tok) + rest, CI) ==
      match DetachPath(Children(j)[i], rest, CI)
      case None => None
      case Some((item, left)) => Some((item, SetChild(j, i, left)))
  {
    hide EncodeToken;
    hide LastSlash;
    hide DecodeInPlace;
    hide Children;
    hide SetChild;
    hide DetachAt;
    var head, t := "/" + EncodeToken(tok), LastSlash(rest);
    SplitBehind(head, rest);
    DetachAtBelow(j, tok, i, rest[..t], DecodeInPlace(rest[t + 1..]));
    assert (head + rest)[..LastSlash(head + rest)] == head + rest[..t];
  }

  function Lift(j: Json, i: nat, r: Outcome): Outcome
    requires i < |Children(j)|
  {
    Outcome(r.status, SetChild(j, i, r.doc))
  }

  lemma AddAtBelow(j: Json, tok: string, i: nat, parent: string, last: string, v: Json)
    requires Leads(j, tok, i) && AtEnd(parent)
    ensures AddAt(j, "/" + EncodeToken(tok) + parent, last, v, CI)
      == Lift(j, i, AddAt(Children(j)[i], parent, last, v, CI))
  {
    hide EncodeToken;
    LeadsItem(j, tok, i, parent);
    SetChildSame(j, i);
    match GetItem(Children(j)[i], parent, CI) {
      case None =>
      case Some(q) =>
        BelowPath(j, i, q, AddChild(At(Children(j)[i], q), last, v, CI).doc);
    }
  }

  lemma AddBelow(j: Json, tok: string, i: nat, rest: string, v: Json)
    requires Leads(j, tok, i) && rest != "" && rest[0] == '/'
    ensures AddPath(j, "/" + EncodeToken(tok) + rest, v, CI) == Lift(j, i, AddPath(Children(j)[i], rest, v, CI))
  {
    hide EncodeToken;
    hide LastSlash;
    hide DecodeInPlace;
    hide Children;
    hide SetChild;
    hide AddAt;
    var head, t := "/" + EncodeToken(tok), LastSlash(rest);
    SplitBehind(head, rest);
    AddAtBelow(j, tok, i, rest[..t], DecodeInPlace(rest[t + 1..]), v);
    assert (head + rest)[..LastSlash(head + rest)] == head + rest[..t];
  }

  /** What the generator emits: add and replace with a value, or remove. */
  predicate Generated(op: Op) {
    op.code == Remove || ((op.code == Add || op.code == Replace) && op.value.Some?)
  }

  lemma OpBelow(j: Json, tok: string, i: nat, op: Op)
    requires Leads(j, tok, i) && Generated(op) && op.path != "" && op.path[0] == '/'
    ensures ApplyOp(j, op.(path := "/" + EncodeToken(tok) + op.path), CI) == Lift(j, i, ApplyOp(Children(j)[i], op, CI))
  {
    var child := Children(j)[i];
    SetChildSame(j, i);
    match op.code {
      case Add =>
        AddBelow(j, tok, i, op.path, op.value.value);
      case Remove =>
        DetachBelow(j, tok, i, op.path);
      case Replace =>
        DetachBelow(j, tok, i, op.path);
        match DetachPath(child, op.path, CI) {
          case None =>
          case Some((_, left)) =>
            var v := op.value.value;
            LeadsSetChild(j, tok, i, left);
            AddBelow(SetChild(j, i, left), tok, i, op.path, v);
            SetChildTwice(j, i, left, AddPath(left, op.path, v, CI).doc);
        }
    }
  }

  /** A list of operations up to the first that fails. */
  ghost function ApplyOps(root: Json, ops: seq<Op>): Outcome
    decreases |ops|
  {
    if ops == [] then Outcome(0, root)
    else
      var r := ApplyOp(root, ops[0], CI);
      if r.status != 0 then r else ApplyOps(r.doc, ops[1..])
  }

  lemma {:induction false} ApplyConcat(root: Json, a: seq<Op>, b: seq<Op>)
    requires ApplyOps(root, a).status == 0
    ensures ApplyOps(root, a + b) == ApplyOps(ApplyOps(root, a).doc, b)
    decreases |a|
  {
    hide ApplyOp;
    if a == [] {
      assert a + b == b;
    } else {
      assert (a + b)[1..] == a[1..] + b;
      ApplyConcat(ApplyOp(root, a[0], CI).doc, a[1..], b);
    }
  }

  predicate AllBelow(ops: seq<Op>) {
    forall k :: 0 <= k < |ops| ==> Generated(ops[k]) && ops[k].path != "" && ops[k].path[0] == '/'
  }

  lemma {:induction false} OpsBelow(j: Json, tok: string, i: nat, ops: seq<Op>)
    requires Leads(j, tok, i) && AllBelow(ops)
    ensures ApplyOps(j, Under("/" + EncodeToken(tok), ops)) == Lift(j, i, ApplyOps(Children(j)[i], ops))
    decreases |ops|
  {
    SetChildSame(j, i);
    if ops == [] {
    } else {
      OpBelow(j, tok, i, ops[0]);
      var r := ApplyOp(Children(j)[i], ops[0], CI);
      if r.status == 0 {
        var j' := SetChild(j, i, r.doc);
        LeadsSetChild(j, tok, i, r.doc);
        OpsBelow(j', tok, i, ops[1..]);
        SetChildTwice(j, i, r.doc, ApplyOps(r.doc, ops[1..]).doc);
      }
    }
  }

  // ---- operations on a child itself ----

  lemma SplitHere(tok: string)
    ensures LastSlash("/" + EncodeToken(tok)) == 0
    ensures ("/" + EncodeToken(tok))[1..] == EncodeToken(tok)
  {
    EncodeNoSlash(tok);
    SlashFound("/" + EncodeToken(tok), 0);
  }

  /** A path of one token works on the root. */
  lemma HerePath(j: Json, tok: string, v: Json)
    requires Decodable(tok)
    ensures DetachPath(j, "/" + EncodeToken(tok), CI) == DetachAt(j, "", tok, CI)
    ensures AddPath(j, "/" + EncodeToken(tok), v, CI) == AddAt(j, "", tok, v, CI)
  {
    SplitHere(tok);
    DecodeEncoded(tok);
    hide EncodeToken;
    hide Decodable;
    hide LastSlash;
    hide DecodeInPlace;
    hide DetachAt;
    hide AddAt;
    var p := "/" + EncodeToken(tok);
    assert p[..0] == "";
  }

  lemma RemoveHere(j: Json, tok: string, i: nat)
    requires Leads(j, tok, i) && Decodable(tok)
    ensures DetachPath(j, "/" + EncodeToken(tok), CI) == Some((Children(j)[i], WithoutChild(j, i)))
  {
    HerePath(j, tok, Null);
    DetachRoot(j, tok, i);
  }

  lemma DetachRoot(j: Json, tok: string, i: nat)
    requires Leads(j, tok, i)
    ensures DetachAt(j, "", tok, CI) == Some((Children(j)[i], WithoutChild(j, i)))
  {
    hide DecodeIndex;
    hide Digits;
    if j.Arr? {
      DecodeDigits(i, "");
      assert Digits(i) + "" == Digits(i);
    }
    assert GetItem(j, "", CI) == Some([]);
  }

  lemma AddHere(j: Json, tok: string, v: Json)
    requires Decodable(tok)
    ensures AddPath(j, "/" + EncodeToken(tok), v, CI).status == AddChild(j, tok, v, CI).status
    ensures AddChild(j, tok, v, CI).status == 0 ==> AddPath(j, "/" + EncodeToken(tok), v, CI) == AddChild(j, tok, v, CI)
  {
    HerePath(j, tok, v);
    hide EncodeToken;
    hide AddPath;
    assert GetItem(j, "", CI) == Some([]);
  }

  // ---- the shape of generated operations ----

  lemma BelowConcat(a: seq<Op>, b: seq<Op>)
    requires AllBelow(a) && AllBelow(b)
    ensures AllBelow(a + b)
  {
  }

  lemma {:induction false} RemovalsBelow(path: string, i: nat, n: nat)
    requires AtEnd(path)
    ensures AllBelow(Removals(path, i, n))
  {
    if n == 0 {
    } else {
      RemovalsBelow(path, i, n - 1);
    }
  }

  lemma {:induction false} AdditionsBelow(path: string, vs: seq<Json>)
    requires AtEnd(path)
    ensures AllBelow(Additions(path, vs))
  {
    if vs == [] {
    } else {
      AdditionsBelow(path, vs[1..]);
    }
  }

  /** For a nonempty path every operation stays below it; at the root there may instead be one
      replacement of the whole document. */
  lemma {:induction false} OpsShape(path: string, from: Json, to: Json)
    requires AtEnd(path)
    ensures path != "" ==> AllBelow(Ops(path, from, to, CI))
    ensures path == "" ==> AllBelow(Ops(path, from, to, CI)) || Ops(path, from, to, CI) == [ReplaceOp("", to)]
    decreases from, 1
  {
    match (from, to) {
      case (Arr(x), Arr(y)) =>
        ElemShape(path, from, to, 0);
      case (Obj(x), Obj(y)) =>
        SortedMembers(from, CI);
        MemberShape(path, from, SortList(x, CI), SortList(y, CI));
      case _ =>
    }
  }

  lemma {:induction false} ElemShape(path: string, from: Json, to: Json, i: nat)
    requires AtEnd(path) && from.Arr? && to.Arr? && i <= |from.elems| && i <= |to.elems|
    ensures AllBelow(ElemOps(path, from, to, i, CI))
    decreases from, 0, |to.elems| - i
  {
    if i < |from.elems| && i < |to.elems| {
      OpsShape(path + "/" + Digits(i), from.elems[i], to.elems[i]);
      ElemShape(path, from, to, i + 1);
      BelowConcat(Ops(path + "/" + Digits(i), from.elems[i], to.elems[i], CI), ElemOps(path, from, to, i + 1, CI));
    } else {
      RemovalsBelow(path, i, |from.elems| - i);
      AdditionsBelow(path, to.elems[i..]);
      BelowConcat(Removals(path, i, |from.elems| - i), Additions(path, to.elems[i..]));
    }
  }

  lemma {:induction false} MemberShape(path: string, from: Json, x: seq<Member<Json>>, y: seq<Member<Json>>)
    requires AtEnd(path) && MembersOf(x, from)
    ensures AllBelow(MemberOps(path, from, x, y, CI))
    decreases from, 0, |x| + |y|
  {
    hide KeyLess;
    hide EncodeToken;
    if x == [] && y == [] {
    } else if x == [] || (y != [] && KeyLess(y[0].key, x[0].key, CI)) {
      MemberShape(path, from, x, y[1..]);
      BelowConcat([AddOp(path, y[0].key, y[0].value)], MemberOps(path, from, x, y[1..], CI));
    } else if y == [] || KeyLess(x[0].key, y[0].key, CI) {
      MemberShape(path, from, x[1..], y);
      BelowConcat([RemoveOp(path, x[0].key)], MemberOps(path, from, x[1..], y, CI));
    } else {
      assert x[0] in from.members;
      var r := path + "/" + EncodeToken(x[0].key);
      OpsShape(r, x[0].value, y[0].value);
      MemberShape(path, from, x[1..], y[1..]);
      BelowConcat(Ops(r, x[0].value, y[0].value, CI), MemberOps(path, from, x[1..], y[1..], CI));
    }
  }

  lemma ReplacedOps(from: Json, to: Json)
    ensures if Replaced(from, to) then Ops("", from, to, CI) == [ReplaceOp("", to)] else AllBelow(Ops("", from, to, CI))
  {
    match (from, to) {
      case (Arr(x), Arr(y)) =>
        ElemShape("", from, to, 0);
      case (Obj(x), Obj(y)) =>
        SortedMembers(from, CI);
        MemberShape("", from, SortList(x, CI), SortList(y, CI));
      case _ =>
    }
  }

  // ---- regularity of edited objects and arrays ----

  lemma RegularWithout(ms: seq<Member<Json>>, i: nat)
    requires Regular(Obj(ms), CI) && i < |ms|
    ensures Regular(Obj(Without(ms, i)), CI)
  {
    DistinctWithout(ms, i, CI);
    forall k | 0 <= k < |Without(ms, i)| ensures Regular(Without(ms, i)[k].value, CI) {
      assert Without(ms, i)[k] == ms[if k < i then k else k + 1];
    }
  }

  lemma RegularAppend(ms: seq<Member<Json>>, m: Member<Json>)
    requires Regular(Obj(ms), CI) && Regular(m.value, CI) && FindKey(ms, m.key, CI) == |ms|
    ensures Regular(Obj(ms + [m]), CI)
  {
    DistinctAppend(ms, m, CI);
    forall k | 0 <= k < |ms + [m]| ensures Regular((ms + [m])[k].value, CI) {
      assert (ms + [m])[k] == if k < |ms| then ms[k] else m;
    }
  }

  lemma RegularWithValue(ms: seq<Member<Json>>, i: nat, v: Json)
    requires Regular(Obj(ms), CI) && Regular(v, CI) && i < |ms|
    ensures Regular(Obj(WithValue(ms, i, v)), CI)
  {
    DistinctWithValue(ms, i, v, CI);
    forall k | 0 <= k < |ms| ensures Regular(WithValue(ms, i, v)[k].value, CI) {
      assert k != i ==> WithValue(ms, i, v)[k] == ms[k];
    }
  }

  // ---- one child ----

  /** The document map after an edit of one member. */
  ghost predicate MemberSet(r: Outcome, ms: seq<Member<Json>>, tok: string, v: Doc) {
    && r.status == 0 && r.doc.Obj? && Regular(r.doc, CI)
    && AbsMembers(r.doc.members, CI) == AbsMembers(ms, CI)[Fold(tok, CI) := v]
  }

  lemma AddFresh(ms: seq<Member<Json>>, tok: string, v: Json)
    requires Regular(Obj(ms), CI) && Regular(v, CI) && FindKey(ms, tok, CI) == |ms|
    ensures MemberSet(Outcome(0, Obj(ms + [Member(tok, v)])), ms, tok, Abs(v, CI))
  {
    hide Abs;
    hide Fold;
    hide Regular;
    RegularAppend(ms, Member(tok, v));
    AbsAppend(ms, Member(tok, v), CI);
  }

  lemma ReplacedMember(r: Outcome, ms: seq<Member<Json>>, left: seq<Member<Json>>, tok: string, v: Doc)
    requires MemberSet(r, left, tok, v) && AbsMembers(left, CI) == AbsMembers(ms, CI) - {Fold(tok, CI)}
    ensures MemberSet(r, ms, tok, v)
  {
    hide AbsMembers;
    hide Fold;
    hide Regular;
    OverwriteEntry(AbsMembers(ms, CI), Fold(tok, CI), v);
  }

  lemma AddMember(ms: seq<Member<Json>>, tok: string, v: Json)
    requires Regular(Obj(ms), CI) && Regular(v, CI)
    ensures MemberSet(AddChild(Obj(ms), tok, v, CI), ms, tok, Abs(v, CI))
  {
    var i := FindKey(ms, tok, CI);
    if i < |ms| {
      RegularWithout(ms, i);
      FindWithout(ms, i, tok, CI);
      AbsWithout(ms, i, CI);
      hide Abs;
      hide AbsMembers;
      hide Regular;
      hide Without;
      hide MemberSet;
      AddFresh(Without(ms, i), tok, v);
      ReplacedMember(AddChild(Obj(ms), tok, v, CI), ms, Without(ms, i), tok, Abs(v, CI));
    } else {
      AddFresh(ms, tok, v);
    }
  }

  lemma ApplyAdd(j: Json, tok: string, v: Json)
    requires Decodable(tok) && AddChild(j, tok, v, CI).status == 0
    ensures ApplyOps(j, [AddOp("", tok, v)]) == AddChild(j, tok, v, CI)
  {
    hide EncodeToken;
    hide AddChild;
    hide AddPath;
    hide GetItem;
    var op := AddOp("", tok, v);
    RootPath(tok);
    AddHere(j, tok, v);
    ApplyOne(j, op);
    assert op.path != "" && op.code == Add;
  }

  lemma RootPath(tok: string)
    ensures "" + "/" + EncodeToken(tok) == "/" + EncodeToken(tok)
  {
  }

  lemma ApplyReplace(j: Json, tok: string, i: nat, v: Json)
    requires Leads(j, tok, i) && Decodable(tok) && AddChild(WithoutChild(j, i), tok, v, CI).status == 0
    ensures ApplyOps(j, [ReplaceOp("/" + EncodeToken(tok), v)]) == AddChild(WithoutChild(j, i), tok, v, CI)
  {
    hide EncodeToken;
    hide AddChild;
    hide AddPath;
    hide DetachPath;
    hide GetItem;
    RemoveHere(j, tok, i);
    AddHere(WithoutChild(j, i), tok, v);
    ApplyOne(j, ReplaceOp("/" + EncodeToken(tok), v));
  }

  lemma AddMemberHere(j: Json, tok: string, v: Json)
    requires j.Obj? && Regular(j, CI) && Regular(v, CI) && Decodable(tok)
    ensures MemberSet(ApplyOps(j, [AddOp("", tok, v)]), j.members, tok, Abs(v, CI))
  {
    AddMember(j.members, tok, v);
    assert AddChild(j, tok, v, CI).status == 0;
    ApplyAdd(j, tok, v);
  }

  lemma ApplyOne(j: Json, op: Op)
    ensures ApplyOps(j, [op]) == ApplyOp(j, op, CI)
  {
    assert [op][1..] == [];
  }

  lemma RemoveMemberHere(j: Json, tok: string)
    requires j.Obj? && Regular(j, CI) && Decodable(tok) && FindKey(j.members, tok, CI) < |j.members|
    ensures var r := ApplyOps(j, [RemoveOp("", tok)]);
      && r.status == 0 && r.doc.Obj? && Regular(r.doc, CI)
      && AbsMembers(r.doc.members, CI) == AbsMembers(j.members, CI) - {Fold(tok, CI)}
  {
    var i := FindKey(j.members, tok, CI);
    RemoveHere(j, tok, i);
    RegularWithout(j.members, i);
    AbsWithout(j.members, i, CI);
    ApplyOne(j, RemoveOp("", tok));
    RootPath(tok);
  }

  lemma ReplaceMemberHere(j: Json, tok: string, v: Json)
    requires j.Obj? && Regular(j, CI) && Regular(v, CI) && Decodable(tok) && FindKey(j.members, tok, CI) < |j.members|
    ensures MemberSet(ApplyOps(j, [ReplaceOp("/" + EncodeToken(tok), v)]), j.members, tok, Abs(v, CI))
  {
    var i := FindKey(j.members, tok, CI);
    var left := Without(j.members, i);
    RegularWithout(j.members, i);
    AddMember(left, tok, v);
    ApplyReplace(j, tok, i, v);
    AbsWithout(j.members, i, CI);
    ReplacedMember(ApplyOps(j, [ReplaceOp("/" + EncodeToken(tok), v)]), j.members, left, tok, Abs(v, CI));
  }

  lemma ReplaceElemHere(j: Json, i: nat, v: Json)
    requires j.Arr? && |j.elems| <= SIZE_MAX && i < |j.elems|
    ensures ApplyOps(j, [ReplaceOp("/" + EncodeToken(Digits(i)), v)]) == Outcome(0, Arr(j.elems[i := v]))
  {
    hide Digits;
    hide AddChild;
    hide EncodeToken;
    DigitsToken(i);
    InsertElem(Without(j.elems, i), i, v);
    assert Without(j.elems, i)[..i] + [v] + Without(j.elems, i)[i..] == j.elems[i := v];
    ApplyReplace(j, Digits(i), i, v);
  }

  lemma InsertElem(es: seq<Json>, i: nat, v: Json)
    requires i <= |es| && i <= SIZE_MAX
    ensures AddChild(Arr(es), Digits(i), v, CI) == Outcome(0, Arr(es[..i] + [v] + es[i..]))
  {
    hide Digits;
    hide DecodeIndex;
    hide EncodeToken;
    DigitsToken(i);
    DecodeDigits(i, "");
    assert Digits(i) + "" == Digits(i);
  }

  /** Applying the operations made for `to` to any document equal to `from` gives one equal to `to`. */
  ghost predicate Turns(root: Json, ops: seq<Op>, to: Json) {
    var r := ApplyOps(root, ops);
    r.status == 0 && Regular(r.doc, CI) && Abs(r.doc, CI) == Abs(to, CI)
  }

  lemma PatchMember(j: Json, tok: string, from: Json, to: Json)
    requires j.Obj? && Regular(j, CI) && Regular(to, CI) && (Replaced(from, to) ==> Decodable(tok))
    requires FindKey(j.members, tok, CI) < |j.members|
    requires Turns(j.members[FindKey(j.members, tok, CI)].value, Ops("", from, to, CI), to)
    ensures MemberSet(ApplyOps(j, Ops("/" + EncodeToken(tok), from, to, CI)), j.members, tok, Abs(to, CI))
  {
    hide EncodeToken;
    hide Abs;
    hide AbsMembers;
    hide Ops;
    hide FindKey;
    hide Regular;
    hide Decodable;
    hide Replaced;
    var i, head, ops := FindKey(j.members, tok, CI), "/" + EncodeToken(tok), Ops("", from, to, CI);
    UnderOps(head, "", from, to, CI);
    assert head + "" == head;
    ReplacedOps(from, to);
    if !Replaced(from, to) {
      OpsBelow(j, tok, i, ops);
      SetMember(j, tok, ApplyOps(j.members[i].value, ops).doc);
    } else {
      UnderOne(head, ReplaceOp("", to));
      ReplaceMemberHere(j, tok, to);
    }
  }

  lemma SetMember(j: Json, tok: string, v: Json)
    requires j.Obj? && Regular(j, CI) && Regular(v, CI) && FindKey(j.members, tok, CI) < |j.members|
    ensures MemberSet(Outcome(0, SetChild(j, FindKey(j.members, tok, CI), v)), j.members, tok, Abs(v, CI))
  {
    RegularWithValue(j.members, FindKey(j.members, tok, CI), v);
    AbsWithValue(j.members, FindKey(j.members, tok, CI), v, CI);
  }

  /** The array after its element at `i` has been patched. */
  ghost predicate ElemSet(r: Outcome, es: seq<Json>, i: nat, to: Json)
    requires i < |es|
  {
    && r.status == 0 && r.doc.Arr? && |r.doc.elems| == |es| && r.doc.elems == es[i := r.doc.elems[i]]
    && Regular(r.doc.elems[i], CI) && Abs(r.doc.elems[i], CI) == Abs(to, CI)
  }

  lemma PatchElem(j: Json, i: nat, from: Json, to: Json)
    requires j.Arr? && |j.elems| <= SIZE_MAX && i < |j.elems| && Regular(to, CI)
    requires Turns(j.elems[i], Ops("", from, to, CI), to)
    ensures ElemSet(ApplyOps(j, Ops("/" + Digits(i), from, to, CI)), j.elems, i, to)
  {
    hide Abs;
    hide Ops;
    hide Digits;
    hide EncodeToken;
    hide Regular;
    var head, ops := "/" + Digits(i), Ops("", from, to, CI);
    DigitsToken(i);
    UnderOps(head, "", from, to, CI);
    assert head + "" == head;
    OpsShape("", from, to);
    if AllBelow(ops) {
      OpsBelow(j, Digits(i), i, ops);
    } else {
      UnderOne(head, ReplaceOp("", to));
      ReplaceElemHere(j, i, to);
    }
  }

  // ---- the walks ----

  lemma {:induction false} RemoveRest(j: Json, i: nat, n: nat)
    requires j.Arr? && |j.elems| <= SIZE_MAX && |j.elems| == i + n
    ensures ApplyOps(j, Removals("", i, n)) == Outcome(0, Arr(j.elems[..i]))
    decreases n
  {
    hide ApplyOp;
    hide EncodeToken;
    if n == 0 {
      assert j.elems[..i] == j.elems;
    } else {
      var ops, left := Removals("", i, n), Arr(Without(j.elems, i));
      RemoveElemHere(j, i);
      assert ops[1..] == Removals("", i, n - 1) && ops[0] == RemoveOp("", Digits(i));
      assert left.elems[..i] == j.elems[..i];
      RemoveRest(left, i, n - 1);
    }
  }

  lemma RemoveElemHere(j: Json, i: nat)
    requires j.Arr? && |j.elems| <= SIZE_MAX && i < |j.elems|
    ensures ApplyOp(j, RemoveOp("", Digits(i)), CI) == Outcome(0, Arr(Without(j.elems, i)))
  {
    hide Digits;
    hide EncodeToken;
    DigitsToken(i);
    RootPath(Digits(i));
    RemoveHere(j, Digits(i), i);
  }

  lemma {:induction false} AddRest(j: Json, vs: seq<Json>)
    requires j.Arr?
    ensures ApplyOps(j, Additions("", vs)) == Outcome(0, Arr(j.elems + vs))
    decreases |vs|
  {
    hide ApplyOp;
    hide EncodeToken;
    if vs == [] {
      assert j.elems + vs == j.elems;
    } else {
      var ops, next := Additions("", vs), Arr(j.elems + [vs[0]]);
      AddElemHere(j, vs[0]);
      assert ops[1..] == Additions("", vs[1..]) && ops[0] == AddOp("", "-", vs[0]);
      assert j.elems + [vs[0]] + vs[1..] == j.elems + vs;
      AddRest(next, vs[1..]);
    }
  }

  lemma AddElemHere(j: Json, v: Json)
    requires j.Arr?
    ensures ApplyOp(j, AddOp("", "-", v), CI) == Outcome(0, Arr(j.elems + [v]))
  {
    PlainDecodable("-");
    ApplyAdd(j, "-", v);
    ApplyOne(j, AddOp("", "-", v));
  }

  /** Elements before `i` are done, those from `i` on are still as in `from`. */
  ghost predicate ElemState(es: seq<Json>, from: Json, to: Json, i: nat)
    requires from.Arr? && to.Arr?
  {
    && |es| == |from.elems| && i <= |to.elems| && |es| <= SIZE_MAX
    && (forall k :: 0 <= k < |es| ==> Regular(es[k], CI))
    && (forall k :: 0 <= k < i && k < |es| ==> Abs(es[k], CI) == Abs(to.elems[k], CI))
    && (forall k :: i <= k < |es| ==> Abs(es[k], CI) == Abs(from.elems[k], CI))
  }

  lemma ElemFinish(j: Json, from: Json, to: Json, i: nat)
    requires j.Arr? && from.Arr? && to.Arr? && Regular(to, CI) && ElemState(j.elems, from, to, i)
    requires i <= |from.elems| == |j.elems| && (i == |from.elems| || i == |to.elems|) && |j.elems| <= SIZE_MAX
    requires i <= |to.elems|
    ensures Turns(j, ElemOps("", from, to, i, CI), to)
  {
    hide Abs;
    hide Regular;
    hide Ops;
    hide Removals;
    hide Additions;
    hide ApplyOps;
    hide ElemState;
    var n, es := |from.elems| - i, j.elems[..i] + to.elems[i..];
    RemoveRest(j, i, n);
    AddRest(Arr(j.elems[..i]), to.elems[i..]);
    ApplyConcat(j, Removals("", i, n), Additions("", to.elems[i..]));
    ElemsDone(j.elems, from, to, i);
    assert ApplyOps(j, ElemOps("", from, to, i, CI)) == Outcome(0, Arr(es));
  }

  lemma ElemsDone(es: seq<Json>, from: Json, to: Json, i: nat)
    requires from.Arr? && to.Arr? && Regular(to, CI) && ElemState(es, from, to, i) && i <= |es|
    ensures var done := Arr(es[..i] + to.elems[i..]); Regular(done, CI) && Abs(done, CI) == Abs(to, CI)
  {
    var done := es[..i] + to.elems[i..];
    assert forall k :: 0 <= k < |done| ==> done[k] == if k < i then es[k] else to.elems[k];
    ElemsEqual(done, to.elems, CI);
  }

  lemma ElemAdvance(es: seq<Json>, from: Json, to: Json, i: nat, es': seq<Json>)
    requires from.Arr? && to.Arr? && ElemState(es, from, to, i) && i < |es| && i < |to.elems|
    requires |es'| == |es| && es' == es[i := es'[i]] && Regular(es'[i], CI) && Abs(es'[i], CI) == Abs(to.elems[i], CI)
    ensures ElemState(es', from, to, i + 1)
  {
    hide Abs;
    hide Regular;
    assert forall k :: 0 <= k < |es| && k != i ==> es'[k] == es[k];
  }

  lemma RootDigits(i: nat)
    ensures "" + "/" + Digits(i) == "/" + Digits(i)
  {
  }

  /** What is left to do when `x` and `y` remain of the two sorted lists: the object is `done`
      together with `x`, and should become `done` together with `y`. */
  ghost predicate MemberState(j: Json, done: map<string, Doc>, x: seq<Member<Json>>, y: seq<Member<Json>>) {
    && j.Obj? && Regular(j, CI)
    && Ascending(x, CI) && DistinctKeys(x, CI) && Ascending(y, CI) && DistinctKeys(y, CI)
    && AbsMembers(j.members, CI) == done + AbsMembers(x, CI)
    && done.Keys !! AbsMembers(x, CI).Keys && done.Keys !! AbsMembers(y, CI).Keys
  }

  ghost predicate MembersTurn(j: Json, ops: seq<Op>, target: map<string, Doc>) {
    var r := ApplyOps(j, ops);
    r.status == 0 && r.doc.Obj? && Regular(r.doc, CI) && AbsMembers(r.doc.members, CI) == target
  }

  lemma MembersConcat(j: Json, a: seq<Op>, b: seq<Op>, target: map<string, Doc>)
    requires ApplyOps(j, a).status == 0 && MembersTurn(ApplyOps(j, a).doc, b, target)
    ensures MembersTurn(j, a + b, target)
  {
    ApplyConcat(j, a, b);
  }

  /** Moving the entry at `f` from the list still to be made to the part that is done. */
  lemma MapDone(done: map<string, Doc>, my: map<string, Doc>, f: string)
    requires done.Keys !! my.Keys && f in my
    ensures done[f := my[f]].Keys !! (my - {f}).Keys && done[f := my[f]] + (my - {f}) == done + my
  {
  }

  lemma MapAdded(done: map<string, Doc>, mx: map<string, Doc>, f: string, v: Doc)
    requires done.Keys !! mx.Keys && f !in mx
    ensures done[f := v].Keys !! mx.Keys && (done + mx)[f := v] == done[f := v] + mx
  {
  }

  lemma MapRemoved(done: map<string, Doc>, mx: map<string, Doc>, f: string)
    requires done.Keys !! mx.Keys && f in mx
    ensures (done + mx) - {f} == done + (mx - {f})
  {
  }

  lemma MapPatched(done: map<string, Doc>, mx: map<string, Doc>, f: string, v: Doc)
    requires done.Keys !! mx.Keys && f in mx
    ensures done[f := v].Keys !! (mx - {f}).Keys && (done + mx)[f := v] == done[f := v] + (mx - {f})
  {
  }

  /** The first member of `y` is new: add it. */
  lemma AddState(j: Json, done: map<string, Doc>, x: seq<Member<Json>>, y: seq<Member<Json>>)
    requires MemberState(j, done, x, y) && y != [] && (x == [] || KeyLess(y[0].key, x[0].key, CI))
    requires Decodable(y[0].key) && Regular(y[0].value, CI)
    ensures var r, done' := ApplyOps(j, [AddOp("", y[0].key, y[0].value)]),
                done[Fold(y[0].key, CI) := Abs(y[0].value, CI)];
      && r.status == 0 && MemberState(r.doc, done', x, y[1..])
      && done' + AbsMembers(y[1..], CI) == done + AbsMembers(y, CI)
  {
    AscendingAbsent(x, y[0].key, CI);
    AbsAt(x, y[0].key, CI);
    HeadGone(y, CI);
    AddMemberHere(j, y[0].key, y[0].value);
    hide Abs;
    hide AbsMembers;
    hide Fold;
    hide LexLess;
    hide FindKey;
    hide Regular;
    hide EncodeToken;
    hide ApplyOps;
    hide Decodable;
    var f := Fold(y[0].key, CI);
    MapDone(done, AbsMembers(y, CI), f);
    MapAdded(done, AbsMembers(x, CI), f, Abs(y[0].value, CI));
  }

  /** The first member of `x` is gone from the target: remove it. */
  lemma RemoveState(j: Json, done: map<string, Doc>, x: seq<Member<Json>>, y: seq<Member<Json>>)
    requires MemberState(j, done, x, y) && x != [] && Decodable(x[0].key)
    ensures var r := ApplyOps(j, [RemoveOp("", x[0].key)]);
      r.status == 0 && MemberState(r.doc, done, x[1..], y)
  {
    HeadGone(x, CI);
    AbsAt(j.members, x[0].key, CI);
    RemoveMemberHere(j, x[0].key);
    hide Abs;
    hide AbsMembers;
    hide Fold;
    hide LexLess;
    hide FindKey;
    hide Regular;
    hide EncodeToken;
    hide ApplyOps;
    hide Decodable;
    MapRemoved(done, AbsMembers(x, CI), Fold(x[0].key, CI));
  }

  /** Both lists start with the same key: patch the member in place. */
  lemma PatchState(j: Json, r: Outcome, done: map<string, Doc>, x: seq<Member<Json>>, y: seq<Member<Json>>)
    requires MemberState(j, done, x, y) && x != [] && y != [] && SameKey(x[0].key, y[0].key, CI)
    requires MemberSet(r, j.members, x[0].key, Abs(y[0].value, CI))
    ensures var done' := done[Fold(x[0].key, CI) := Abs(y[0].value, CI)];
      MemberState(r.doc, done', x[1..], y[1..]) && done' + AbsMembers(y[1..], CI) == done + AbsMembers(y, CI)
  {
    HeadGone(x, CI);
    HeadGone(y, CI);
    hide Abs;
    hide AbsMembers;
    hide Fold;
    hide LexLess;
    hide FindKey;
    hide Regular;
    var f := Fold(x[0].key, CI);
    MapDone(done, AbsMembers(y, CI), f);
    MapPatched(done, AbsMembers(x, CI), f, Abs(y[0].value, CI));
  }

  lemma MemberFound(j: Json, done: map<string, Doc>, x: seq<Member<Json>>)
    requires j.Obj? && AbsMembers(j.members, CI) == done + AbsMembers(x, CI) && x != [] && DistinctKeys(x, CI)
    ensures var i := FindKey(j.members, x[0].key, CI);
      i < |j.members| && Abs(j.members[i].value, CI) == Abs(x[0].value, CI)
  {
    hide Abs;
    hide Fold;
    HeadGone(x, CI);
    AbsAt(j.members, x[0].key, CI);
  }

  // ---- the operations as the JSON array the library returns ----

  function OpName(code: Opcode): string {
    match code
    case Add => "add"
    case Remove => "remove"
    case Replace => "replace"
    case Move => "move"
    case Copy => "copy"
    case Test => "test"
  }

  /** The object `compose_patch` builds. */
  function Composed(op: Op): Json {
    Obj([Member("op", Str(OpName(op.code))), Member("path", Str(op.path))] +
        if op.value.Some? then [Member("value", op.value.value)] else [])
  }

  function ComposedAll(ops: seq<Op>): (r: seq<Json>)
    ensures |r| == |ops|
  {
    if ops == [] then [] else [Composed(ops[0])] + ComposedAll(ops[1..])
  }

  /** `cJSONUtils_GeneratePatches`. */
  function GeneratedPatches(from: Json, to: Json): seq<Json> {
    ComposedAll(Ops("", from, to, CI))
  }

  lemma PatchKeys(cs: bool)
    ensures !SameKey("op", "path", cs) && !SameKey("op", "value", cs) && !SameKey("op", "from", cs)
    ensures !SameKey("path", "value", cs) && !SameKey("path", "from", cs) && !SameKey("value", "from", cs)
  {
    assert |Fold("op", cs)| == 2 && |Fold("path", cs)| == 4 && |Fold("value", cs)| == 5 && |Fold("from", cs)| == 4;
    assert Fold("path", cs)[0] == 'p' && Fold("from", cs)[0] == 'f';
  }

  /** Reading a composed patch gives back the operation. */
  lemma ComposedLookups(op: Op, cs: bool)
    ensures var j := Composed(op);
      && Lookup(j, "op", cs) == Some(Str(OpName(op.code))) && Lookup(j, "path", cs) == Some(Str(op.path))
      && Lookup(j, "value", cs) == op.value && Lookup(j, "from", cs) == None
  {
    PatchKeys(cs);
    hide Fold;
    var ms := Composed(op).members;
    var t, u := ms[1..], ms[2..];
    assert t == [ms[1]] + u && t[1..] == u;
    assert u == if op.value.Some? then [Member("value", op.value.value)] else [];
    assert FindKey(u, "value", cs) == 0 && FindKey(u, "from", cs) == |u|;
    assert FindKey(t, "path", cs) == 0 && FindKey(t, "value", cs) == 1 && FindKey(t, "from", cs) == |t|;
    assert FindKey(ms, "op", cs) == 0 && FindKey(ms, "path", cs) == 1;
    assert FindKey(ms, "value", cs) == 2 && FindKey(ms, "from", cs) == |ms|;
  }

  lemma ApplyComposed(root: Json, op: Op, cs: bool)
    requires op.from.None?
    ensures ApplyPatch(root, Composed(op), cs) == ApplyOp(root, op, cs)
    ensures DecodeOpcode(Composed(op), cs) == Some(op.code)
  {
    hide ApplyOp;
    hide Lookup;
    hide Composed;
    ComposedLookups(op, cs);
    assert DecodeOpcode(Composed(op), cs) == Some(op.code);
  }

  ghost predicate AllGenerated(ops: seq<Op>) {
    forall k :: 0 <= k < |ops| ==> ops[k].from.None? && Generated(ops[k])
  }

  lemma {:induction false} ApplyComposedAll(root: Json, ops: seq<Op>)
    requires AllGenerated(ops)
    ensures ApplyPatches(root, ComposedAll(ops), CI) == ApplyOps(root, ops)
    decreases |ops|
  {
    if ops == [] {
    } else {
      ApplyComposed(root, ops[0], CI);
      var r := ApplyOp(root, ops[0], CI);
      if r.status == 0 {
        ApplyComposedAll(r.doc, ops[1..]);
      }
    }
  }

  lemma {:induction false} OpsGenerated(path: string, from: Json, to: Json, cs: bool)
    ensures AllGenerated(Ops(path, from, to, cs))
    decreases from, 1
  {
    match (from, to) {
      case (Arr(x), Arr(y)) =>
        ElemsGenerated(path, from, to, 0, cs);
      case (Obj(x), Obj(y)) =>
        SortedMembers(from, cs);
        MembersGenerated(path, from, SortList(x, cs), SortList(y, cs), cs);
      case _ =>
    }
  }

  lemma {:induction false} RestGenerated(path: string, i: nat, n: nat, vs: seq<Json>)
    ensures AllGenerated(Removals(path, i, n)) && AllGenerated(Additions(path, vs))
    decreases n, |vs|
  {
    if n > 0 {
      RestGenerated(path, i, n - 1, vs);
    }
    if vs == [] {
    } else {
      RestGenerated(path, i, n, vs[1..]);
    }
  }

  lemma {:induction false} ElemsGenerated(path: string, from: Json, to: Json, i: nat, cs: bool)
    requires from.Arr? && to.Arr? && i <= |from.elems| && i <= |to.elems|
    ensures AllGenerated(ElemOps(path, from, to, i, cs))
    decreases from, 0, |to.elems| - i
  {
    if i < |from.elems| && i < |to.elems| {
      OpsGenerated(path + "/" + Digits(i), from.elems[i], to.elems[i], cs);
      ElemsGenerated(path, from, to, i + 1, cs);
    } else {
      RestGenerated(path, i, |from.elems| - i, to.elems[i..]);
    }
  }

  lemma {:induction false} MembersGenerated(path: string, from: Json, x: seq<Member<Json>>, y: seq<Member<Json>>,
    cs: bool)
    requires MembersOf(x, from)
    ensures AllGenerated(MemberOps(path, from, x, y, cs))
    decreases from, 0, |x| + |y|
  {
    hide KeyLess;
    hide EncodeToken;
    if x == [] && y == [] {
    } else if x == [] || (y != [] && KeyLess(y[0].key, x[0].key, cs)) {
      MembersGenerated(path, from, x, y[1..], cs);
    } else if y == [] || KeyLess(x[0].key, y[0].key, cs) {
      MembersGenerated(path, from, x[1..], y, cs);
    } else {
      assert x[0] in from.members;
      OpsGenerated(path + "/" + EncodeToken(x[0].key), x[0].value, y[0].value, cs);
      MembersGenerated(path, from, x[1..], y[1..], cs);
    }
  }
}
