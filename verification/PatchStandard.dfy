/** The six patch operations as RFC 6902 has them, on documents, and where `apply_patch` does just that. */
module PatchStandard {
  import opened Text
  import opened Json
  import opened Compare
  import opened Arrange
  import opened Pointer
  import opened PointerExact
  import opened Patch
  import opened PatchSteps
  import opened PatchSound
  import opened PatchInverse

  // ---- the standard ----

  /** The document a reference token leads to, by section 4 of RFC 6901. */
  ghost function Follow(d: Doc, t: string, cs: bool): Option<Doc> {
    match d
    case DArr(es) => var i := Position(t); if i.Some? && i.value < |es| then Some(es[i.value]) else None
    case DObj(m) => var k := Unescaped(t); if k.Some? then Entry(m, Fold(k.value, cs)) else None
    case _ => None
  }

  ghost function Find(d: Doc, p: string, cs: bool): Option<Doc>
    decreases |p|
  {
    if p == "" || p[0] != '/' then Some(d)
    else
      var t := Token(p[1..]);
      match Follow(d, t, cs)
      case None => None
      case Some(c) => Find(c, p[1 + |t|..], cs)
  }

  datatype Edit = Insert(v: Doc) | Change(v: Doc) | Erase

  /** The new document, or the status of the failure. */
  datatype Answer = Done(doc: Doc) | Failed(status: int)

  /** An edit of the child that the token names: sections 4.1 to 4.3 of RFC 6902. */
  ghost function EditHere(d: Doc, t: string, e: Edit, cs: bool): Answer {
    match e
    case Insert(v) => InsertHere(d, t, v, cs)
    case Change(v) => if Follow(d, t, cs).None? then Failed(13) else Done(Update(d, t, v, cs))
    case Erase => if Follow(d, t, cs).None? then Failed(13) else Done(EraseHere(d, t, cs))
  }

  /** Into an array in front of the element of that position, or behind the last one; into an object
      in place of any member of that key. */
  ghost function InsertHere(d: Doc, t: string, v: Doc, cs: bool): Answer {
    match d
    case DArr(es) =>
      var i := if t == "-" then Some(|es|) else Position(t);
      if i.None? then Failed(11) else if i.value > |es| then Failed(10)
      else Done(DArr(es[..i.value] + [v] + es[i.value..]))
    case DObj(m) => var k := Unescaped(t); if k.Some? then Done(DObj(m[Fold(k.value, cs) := v])) else Failed(9)
    case _ => Failed(9)
  }

  ghost function Update(d: Doc, t: string, c: Doc, cs: bool): Doc
    requires Follow(d, t, cs).Some?
  {
    match d
    case DArr(es) => DArr(es[Position(t).value := c])
    case DObj(m) => DObj(m[Fold(Unescaped(t).value, cs) := c])
  }

  ghost function EraseHere(d: Doc, t: string, cs: bool): Doc
    requires Follow(d, t, cs).Some?
  {
    match d
    case DArr(es) => DArr(Without(es, Position(t).value))
    case DObj(m) => DObj(m - {Fold(Unescaped(t).value, cs)})
  }

  /** An edit at a pointer: everything beside the way there stays as it is. */
  ghost function Edited(d: Doc, p: string, e: Edit, cs: bool): Answer
    decreases |p|
  {
    if p == "" || p[0] != '/' then Failed(if e.Insert? then 9 else 13)
    else
      var t := Token(p[1..]);
      var q := p[1 + |t|..];
      if q == "" then EditHere(d, t, e, cs)
      else
        match Follow(d, t, cs)
        case None => Failed(if e.Insert? then 9 else 13)
        case Some(c) => Within(d, t, Edited(c, q, e, cs), cs)
  }

  ghost function Within(d: Doc, t: string, r: Answer, cs: bool): Answer
    requires Follow(d, t, cs).Some?
  {
    if r.Done? then Done(Update(d, t, r.doc, cs)) else r
  }

  /** Section 4 of RFC 6902. A value or an origin may be missing. The root can be replaced but not moved,
      and nothing can be moved or copied to it; what is left of a removed root is an invalid item. */
  ghost function Operation(d: Doc, op: Op, cs: bool): Answer {
    match op.code
    case Add =>
      if op.value.None? then Failed(7)
      else if op.path == "" then Done(Abs(op.value.value, cs))
      else Edited(d, op.path, Insert(Abs(op.value.value, cs)), cs)
    case Remove => if op.path == "" then Done(DInvalid) else Edited(d, op.path, Erase, cs)
    case Replace =>
      if op.path != "" && Find(d, op.path, cs).None? then Failed(13)
      else if op.value.None? then Failed(7)
      else if op.path == "" then Done(Abs(op.value.value, cs))
      else Edited(d, op.path, Change(Abs(op.value.value, cs)), cs)
    case Move =>
      if op.from.None? then Failed(4)
      else if !op.from.value.Str? then Failed(5)
      else (
        match (Find(d, op.from.value.s, cs), Edited(d, op.from.value.s, Erase, cs))
        case (Some(v), Done(left)) => Edited(left, op.path, Insert(v), cs)
        case _ => Failed(5))
    case Copy =>
      if op.from.None? then Failed(4)
      else if !op.from.value.Str? then Failed(5)
      else (
        match Find(d, op.from.value.s, cs)
        case None => Failed(5)
        case Some(v) => Edited(d, op.path, Insert(v), cs))
    case Test =>
      if op.value.Some? && Find(d, op.path, cs) == Some(Abs(op.value.value, cs)) then Done(d) else Failed(1)
  }

  // ---- where the code meets it ----

  /** Where the code edits what the standard says. The last token of the pointer holds no tilde if it
      names an element; if it names a member, the code unescapes it correctly, and a removal, which
      always ignores case, finds the same member as a lookup under the case rule. */
  ghost predicate Plain(j: Json, p: string, removal: bool, cs: bool)
    decreases |p|
  {
    p == "" || (
      && p[0] == '/'
      && var t := Token(p[1..]);
        var q := p[1 + |t|..];
        if q == "" then PlainHere(j, t, removal, cs)
        else Step(j, t, cs).None? || Plain(Children(j)[Step(j, t, cs).value], q, removal, cs))
  }

  ghost predicate PlainHere(j: Json, t: string, removal: bool, cs: bool) {
    match j
    case Arr(_) => '~' !in t
    case Obj(ms) =>
      var k := DecodeInPlace(t);
      Unescaped(t) == Some(k) && (removal ==> FindKey(ms, k, CI) == FindKey(ms, k, cs))
    case _ => true
  }

  /** The pointers of the operation are plain where it edits, and a test compares regular documents. */
  ghost predicate Ordinary(root: Json, op: Op, cs: bool) {
    && AtEnd(op.path)
    && (op.code == Add || op.code == Copy ==> Plain(root, op.path, false, cs))
    && (op.code == Remove || op.code == Replace ==> Plain(root, op.path, true, cs))
    && (op.from.Some? && op.from.value.Str? ==> PlainFrom(root, op.code, op.from.value.s, op.path, cs))
    && (op.code == Test ==> Regular(root, cs) && (op.value.Some? ==> Regular(op.value.value, cs)))
  }

  ghost predicate PlainFrom(root: Json, code: Opcode, from: string, path: string, cs: bool) {
    && AtEnd(from)
    && (code == Move ==> Plain(root, from, true, cs))
    && (code == Move && DetachPath(root, from, cs).Some? ==>
          Plain(DetachPath(root, from, cs).value.1, path, false, cs))
  }

  // ---- tokens of a pointer ----

  /** A pointer starts with a slash and a token; the rest is empty or a pointer again. */
  lemma Parts(p: string)
    requires p != "" && p[0] == '/'
    ensures var t := Token(p[1..]);
      var q := p[1 + |t|..];
      p == "/" + t + q && '/' !in t && AtEnd(q) && |q| < |p|
  {
    var t := Token(p[1..]);
    assert p[1..][..|t|] == t;
    hide Token;
    assert p == "/" + p[1..][..|t|] + p[1 + |t|..];
  }

  lemma {:induction false} TokenThen(t: string, r: string)
    requires '/' !in t && AtEnd(r)
    ensures Token(t + r) == t
  {
    if t == "" {
      assert t + r == r;
    } else {
      assert (t + r)[1..] == t[1..] + r && t == [t[0]] + t[1..];
      TokenThen(t[1..], r);
    }
  }

  lemma StepThen(j: Json, t: string, r: string, cs: bool)
    requires '/' !in t && AtEnd(r)
    ensures Step(j, t + r, cs) == Step(j, t, cs) && SkipToken(t + r) == r
  {
    TokenThen(t, r);
    TokenThen(t, "");
    assert t + "" == t;
    SkipText(t, r);
    hide Step;
    var a, b := Step(j, t + r, cs), Step(j, t, cs);
    if a.Some? {
      StepExact(j, t + r, a.value, cs);
      StepExact(j, t, a.value, cs);
    }
    if b.Some? {
      StepExact(j, t + r, b.value, cs);
      StepExact(j, t, b.value, cs);
    }
  }

  lemma ItemThen(j: Json, t: string, r: string, cs: bool)
    requires '/' !in t && AtEnd(r)
    ensures GetItem(j, "/" + t + r, cs) ==
      match Step(j, t, cs)
      case None => None
      case Some(i) => Cons(i, GetItem(Children(j)[i], r, cs))
  {
    StepThen(j, t, r, cs);
    hide Step;
    hide SkipToken;
    var p := "/" + t + r;
    assert p[0] == '/' && p[1..] == t + r;
  }

  lemma OneToken(t: string)
    requires '/' !in t
    ensures var p := "/" + t; LastSlash(p) == 0 && p[..0] == "" && p[1..] == t
  {
    var p := "/" + t;
    SlashFound(p, 0);
    forall k | 0 < k < |p| ensures p[k] != '/' {
      assert p[k] == t[k - 1];
    }
  }

  // ---- an edit on the way down ----

  /** The parent's pointer and the last token of a path that goes on behind its first token. */
  lemma SplitDown(j: Json, t: string, q: string, v: Json, cs: bool)
    requires q != "" && AtEnd(q)
    ensures LastSlash(q) >= 0
    ensures var l := LastSlash(q);
      var last := DecodeInPlace(q[l + 1..]);
      && AtEnd(q[..l])
      && AddPath(j, "/" + t + q, v, cs) == AddAt(j, "/" + t + q[..l], last, v, cs)
      && DetachPath(j, "/" + t + q, cs) == DetachAt(j, "/" + t + q[..l], last, cs)
      && AddPath(j, q, v, cs) == AddAt(j, q[..l], last, v, cs)
      && DetachPath(j, q, cs) == DetachAt(j, q[..l], last, cs)
  {
    hide *;
    assert q[0] == '/' by {
      HeadSlash(q);
    }
    SplitBehind("/" + t, q);
    SplitPath(j, "/" + t + q, v, cs);
    SplitPath(j, q, v, cs);
  }

  lemma HeadSlash(q: string)
    requires q != "" && AtEnd(q)
    ensures q[0] == '/'
  {
  }

  lemma SplitPath(j: Json, p: string, v: Json, cs: bool)
    requires LastSlash(p) >= 0
    ensures var l := LastSlash(p);
      var last := DecodeInPlace(p[l + 1..]);
      AddPath(j, p, v, cs) == AddAt(j, p[..l], last, v, cs) && DetachPath(j, p, cs) == DetachAt(j, p[..l], last, cs)
  {
    hide DecodeInPlace;
    hide LastSlash;
    hide AddAt;
    hide DetachAt;
  }

  lemma HereDown(j: Json, t: string, v: Json, cs: bool)
    requires '/' !in t
    ensures AddPath(j, "/" + t + "", v, cs) == AddAt(j, "", DecodeInPlace(t), v, cs)
    ensures DetachPath(j, "/" + t + "", cs) == DetachAt(j, "", DecodeInPlace(t), cs)
  {
    OneToken(t);
    assert "/" + t + "" == "/" + t;
    hide DecodeInPlace;
    hide LastSlash;
    hide AddAt;
    hide DetachAt;
  }

  lemma AddDown(j: Json, t: string, q: string, v: Json, cs: bool)
    requires '/' !in t && AtEnd(q)
    ensures AddPath(j, "/" + t + q, v, cs) ==
      if q == "" then AddChild(j, DecodeInPlace(t), v, cs)
      else
        match Step(j, t, cs)
        case None => Outcome(9, j)
        case Some(i) => Lift(j, i, AddPath(Children(j)[i], q, v, cs))
  {
    hide DecodeInPlace;
    hide AddPath;
    hide Step;
    hide AddChild;
    if q == "" {
      HereDown(j, t, v, cs);
      assert GetItem(j, "", cs) == Some([]);
      assert AddAt(j, "", DecodeInPlace(t), v, cs) == AddHere(j, DecodeInPlace(t), v, cs);
      AddSame(j, DecodeInPlace(t), v, cs);
    } else {
      hide AddAt;
      hide LastSlash;
      var l := LastSlash(q);
      SplitDown(j, t, q, v, cs);
      AddWithin(j, t, q[..l], DecodeInPlace(q[l + 1..]), v, cs);
      if Step(j, t, cs).Some? {
        SplitDown(Children(j)[Step(j, t, cs).value], t, q, v, cs);
      }
    }
  }

  ghost function AddHere(j: Json, last: string, v: Json, cs: bool): Outcome {
    var r := AddChild(j, last, v, cs);
    if r.status == 0 then Outcome(0, r.doc) else Outcome(r.status, j)
  }

  lemma AddSame(j: Json, last: string, v: Json, cs: bool)
    ensures AddHere(j, last, v, cs) == AddChild(j, last, v, cs)
  {
  }

  lemma AddWithin(j: Json, t: string, parent: string, last: string, v: Json, cs: bool)
    requires '/' !in t && AtEnd(parent)
    ensures AddAt(j, "/" + t + parent, last, v, cs) ==
      match Step(j, t, cs)
      case None => Outcome(9, j)
      case Some(i) => Lift(j, i, AddAt(Children(j)[i], parent, last, v, cs))
  {
    ItemThen(j, t, parent, cs);
    hide AddChild;
    hide GetItem;
    hide Step;
    if Step(j, t, cs).Some? {
      var i := Step(j, t, cs).value;
      var g := GetItem(Children(j)[i], parent, cs);
      SetChildSame(j, i);
      if g.Some? {
        BelowPath(j, i, g.value, AddChild(At(Children(j)[i], g.value), last, v, cs).doc);
      }
    }
    hide SetChild;
    hide Put;
    hide At;
    hide Children;
    hide ValidPath;
  }

  ghost function DetachHere(j: Json, t: string): Option<(Json, Json)> {
    match RemovalTarget(j, DecodeInPlace(t))
    case None => None
    case Some(i) => Some((Children(j)[i], WithoutChild(j, i)))
  }

  lemma DetachDown(j: Json, t: string, q: string, cs: bool)
    requires '/' !in t && AtEnd(q)
    ensures DetachPath(j, "/" + t + q, cs) ==
      if q == "" then DetachHere(j, t)
      else
        match Step(j, t, cs)
        case None => None
        case Some(i) => InChild(j, i, DetachPath(Children(j)[i], q, cs))
  {
    hide DecodeInPlace;
    hide DetachPath;
    hide Step;
    hide RemovalTarget;
    hide WithoutChild;
    if q == "" {
      HereDown(j, t, j, cs);
      assert GetItem(j, "", cs) == Some([]);
    } else {
      hide DetachAt;
      hide LastSlash;
      var l := LastSlash(q);
      SplitDown(j, t, q, j, cs);
      DetachWithin(j, t, q[..l], DecodeInPlace(q[l + 1..]), cs);
      if Step(j, t, cs).Some? {
        SplitDown(Children(j)[Step(j, t, cs).value], t, q, j, cs);
      }
    }
  }

  ghost function InChild(j: Json, i: nat, r: Option<(Json, Json)>): Option<(Json, Json)>
    requires i < |Children(j)|
  {
    match r
    case None => None
    case Some((item, left)) => Some((item, SetChild(j, i, left)))
  }

  lemma DetachWithin(j: Json, t: string, parent: string, last: string, cs: bool)
    requires '/' !in t && AtEnd(parent)
    ensures DetachAt(j, "/" + t + parent, last, cs) ==
      match Step(j, t, cs)
      case None => None
      case Some(i) => InChild(j, i, DetachAt(Children(j)[i], parent, last, cs))
  {
    ItemThen(j, t, parent, cs);
    hide RemovalTarget;
    match Step(j, t, cs) {
      case None =>
      case Some(i) =>
        match GetItem(Children(j)[i], parent, cs) {
          case None =>
          case Some(g) =>
            var p := At(Children(j)[i], g);
            BelowPath(j, i, g, p);
            match RemovalTarget(p, last) {
              case None =>
              case Some(k) => BelowPath(j, i, g, WithoutChild(p, k));
            }
        }
    }
  }

  // ---- one token, on trees and on documents ----

  lemma FollowStep(j: Json, t: string, cs: bool)
    requires '/' !in t
    ensures Follow(Abs(j, cs), t, cs) ==
      match Step(j, t, cs)
      case None => None
      case Some(i) => Some(Abs(Children(j)[i], cs))
  {
    TokenThen(t, "");
    assert t + "" == t;
    if j.Arr? {
      IndexExact(t);
    } else if j.Obj? && Unescaped(t).Some? {
      var k := Unescaped(t).value;
      FindNamed(j.members, t, cs);
      AbsAt(j.members, k, cs);
    } else if j.Obj? {
      FindNamed(j.members, t, cs);
    }
    hide DecodeIndex;
    hide Position;
    hide Unescaped;
    hide FindToken;
    hide Fold;
    hide AbsMembers;
  }

  /** The member a token leads to is the first of the key it stands for. */
  lemma {:induction false} FindNamed(ms: seq<Member<Json>>, t: string, cs: bool)
    requires '/' !in t
    ensures var k := Unescaped(t); FindToken(ms, t, cs) == if k.Some? then FindKey(ms, k.value, cs) else |ms|
  {
    hide ComparePointers;
    hide SameKey;
    hide Unescaped;
    if ms == [] {
    } else {
      TokenThen(t, "");
      assert t + "" == t;
      MatchExact(ms[0].key, t, cs);
      FindNamed(ms[1..], t, cs);
    }
  }

  lemma UpdateChild(j: Json, t: string, i: nat, c: Json, cs: bool)
    requires '/' !in t && Sound(j, cs) && Step(j, t, cs) == Some(i)
    ensures Follow(Abs(j, cs), t, cs).Some?
    ensures Abs(SetChild(j, i, c), cs) == Update(Abs(j, cs), t, Abs(c, cs), cs)
  {
    FollowStep(j, t, cs);
    if j.Arr? {
      PlainPosition(t);
      UpdateElem(j.elems, i, c, cs);
    } else {
      UpdateMember(j.members, t, i, c, cs);
    }
    hide DecodeIndex;
    hide Position;
    hide Unescaped;
    hide FindToken;
    hide Sound;
    hide AbsMembers;
    hide WithValue;
  }

  lemma UpdateElem(es: seq<Json>, i: nat, c: Json, cs: bool)
    requires i < |es|
    ensures Abs(Arr(es[i := c]), cs) == DArr(Abs(Arr(es), cs).es[i := Abs(c, cs)])
  {
    assert Abs(Arr(es[i := c]), cs).es == Abs(Arr(es), cs).es[i := Abs(c, cs)];
  }

  lemma UpdateMember(ms: seq<Member<Json>>, t: string, i: nat, c: Json, cs: bool)
    requires '/' !in t && DistinctKeys(ms, cs) && i < |ms| && FindToken(ms, t, cs) == i
    ensures Unescaped(t).Some?
    ensures AbsMembers(WithValue(ms, i, c), cs) == AbsMembers(ms, cs)[Fold(Unescaped(t).value, cs) := Abs(c, cs)]
  {
    FindNamed(ms, t, cs);
    AbsWithValue(ms, i, c, cs);
    hide Unescaped;
    hide FindToken;
    hide Abs;
  }

  lemma PlainPosition(t: string)
    requires '/' !in t
    ensures DecodeIndex(t) == Position(t)
  {
    TokenThen(t, "");
    assert t + "" == t;
    IndexExact(t);
  }

  // ---- edits ----

  /** What the code does is what the standard says; `left` is left of a document after a failure. */
  ghost predicate Meets(r: Outcome, a: Answer, left: Doc, cs: bool) {
    match a
    case Done(d) => r.status == 0 && Abs(r.doc, cs) == d
    case Failed(status) => r.status == status != 0 && Abs(r.doc, cs) == left
  }

  lemma InsertMember(ms: seq<Member<Json>>, k: string, v: Json, cs: bool)
    requires DistinctKeys(ms, cs)
    ensures var r := AddChild(Obj(ms), k, v, cs);
      r.status == 0 && r.doc.Obj?
      && AbsMembers(r.doc.members, cs) == AbsMembers(ms, cs)[Fold(k, cs) := Abs(v, cs)]
  {
    var i := FindKey(ms, k, cs);
    if i < |ms| {
      AbsWithout(ms, i, cs);
      FindWithout(ms, i, k, cs);
      AbsAppend(Without(ms, i), Member(k, v), cs);
      OverwriteEntry(AbsMembers(ms, cs), Fold(k, cs), Abs(v, cs));
    } else {
      AbsAppend(ms, Member(k, v), cs);
    }
  }

  lemma PlainText(t: string)
    requires '~' !in t && '/' !in t
    ensures DecodeInPlace(t) == t
  {
    PlainDecodable(t);
    DecodeEncoded(t);
  }

  lemma AbsInsert(es: seq<Json>, i: nat, v: Json, cs: bool)
    requires i <= |es|
    ensures Abs(Arr(es[..i] + [v] + es[i..]), cs)
      == DArr(Abs(Arr(es), cs).es[..i] + [Abs(v, cs)] + Abs(Arr(es), cs).es[i..])
  {
    var w := es[..i] + [v] + es[i..];
    var d := Abs(Arr(es), cs).es;
    assert Abs(Arr(w), cs).es == d[..i] + [Abs(v, cs)] + d[i..];
  }

  lemma InsertElement(es: seq<Json>, t: string, v: Json, cs: bool)
    requires '/' !in t && '~' !in t
    ensures var d := Abs(Arr(es), cs);
      Meets(AddChild(Arr(es), DecodeInPlace(t), v, cs), InsertHere(d, t, Abs(v, cs), cs), d, cs)
  {
    hide DecodeInPlace;
    hide DecodeIndex;
    hide Position;
    PlainText(t);
    PlainPosition(t);
    AbsInsert(es, |es|, v, cs);
    assert es[..|es|] + [v] + es[|es|..] == es + [v];
    if Position(t).Some? && Position(t).value <= |es| {
      AbsInsert(es, Position(t).value, v, cs);
    }
  }

  lemma InsertMeets(j: Json, t: string, v: Json, cs: bool)
    requires '/' !in t && Sound(j, cs) && PlainHere(j, t, false, cs)
    ensures Meets(AddChild(j, DecodeInPlace(t), v, cs), InsertHere(Abs(j, cs), t, Abs(v, cs), cs), Abs(j, cs), cs)
  {
    hide DecodeInPlace;
    hide Unescaped;
    match j {
      case Arr(es) =>
        InsertElement(es, t, v, cs);
        hide *;
      case Obj(ms) =>
        InsertMember(ms, DecodeInPlace(t), v, cs);
        hide AddChild;
      case _ =>
    }
  }

  lemma AbsWithoutElem(es: seq<Json>, i: nat, cs: bool)
    requires i < |es|
    ensures Abs(Arr(Without(es, i)), cs) == DArr(Without(Abs(Arr(es), cs).es, i))
  {
    assert Abs(Arr(Without(es, i)), cs).es == Without(Abs(Arr(es), cs).es, i);
  }

  /** What is taken out, and what is left. */
  ghost predicate Takes(r: Option<(Json, Json)>, found: Option<Doc>, a: Answer, cs: bool) {
    match r
    case None => found.None? && a == Failed(13)
    case Some((item, left)) => found == Some(Abs(item, cs)) && a == Done(Abs(left, cs))
  }

  lemma EraseElement(es: seq<Json>, t: string, cs: bool)
    requires '/' !in t && '~' !in t
    ensures var d := Abs(Arr(es), cs);
      Takes(DetachHere(Arr(es), t), Follow(d, t, cs), EditHere(d, t, Erase, cs), cs)
  {
    PlainText(t);
    PlainPosition(t);
    hide DecodeInPlace;
    hide DecodeIndex;
    hide Position;
    if Position(t).Some? && Position(t).value < |es| {
      AbsWithoutElem(es, Position(t).value, cs);
    }
    hide Without;
  }

  lemma EraseMember(ms: seq<Member<Json>>, t: string, cs: bool)
    requires DistinctKeys(ms, cs) && PlainHere(Obj(ms), t, true, cs)
    ensures var d := Abs(Obj(ms), cs);
      Takes(DetachHere(Obj(ms), t), Follow(d, t, cs), EditHere(d, t, Erase, cs), cs)
  {
    hide DecodeInPlace;
    hide Unescaped;
    hide Fold;
    hide AbsMembers;
    hide FindKey;
    hide DistinctKeys;
    var k := DecodeInPlace(t);
    var i := FindKey(ms, k, cs);
    AbsAt(ms, k, cs);
    if i < |ms| {
      AbsWithout(ms, i, cs);
    }
    hide Without;
  }

  lemma EraseMeets(j: Json, t: string, cs: bool)
    requires '/' !in t && Sound(j, cs) && PlainHere(j, t, true, cs)
    ensures Takes(DetachHere(j, t), Follow(Abs(j, cs), t, cs), EditHere(Abs(j, cs), t, Erase, cs), cs)
  {
    match j {
      case Arr(es) =>
        EraseElement(es, t, cs);
        hide *;
      case Obj(ms) =>
        EraseMember(ms, t, cs);
        hide *;
      case _ =>
    }
  }

  /** Putting a value at a pointer. */
  lemma {:induction false} AddMeets(j: Json, p: string, v: Json, cs: bool)
    requires Sound(j, cs) && Plain(j, p, false, cs)
    ensures Meets(AddPath(j, p, v, cs), Edited(Abs(j, cs), p, Insert(Abs(v, cs)), cs), Abs(j, cs), cs)
    decreases |p|
  {
    hide AddPath;
    hide Abs;
    hide Sound;
    hide Token;
    hide Follow;
    hide Step;
    hide PlainHere;
    hide AddChild;
    hide InsertHere;
    hide DecodeInPlace;
    hide Children;
    hide SetChild;
    hide Update;
    if p == "" {
      NoPath(j, v, cs);
    } else {
      var t := Token(p[1..]);
      var q := p[1 + |t|..];
      Parts(p);
      AddDown(j, t, q, v, cs);
      if q == "" {
        InsertMeets(j, t, v, cs);
      } else {
        FollowStep(j, t, cs);
        if Step(j, t, cs).Some? {
          var i := Step(j, t, cs).value;
          SoundChild(j, i, cs);
          AddMeets(Children(j)[i], q, v, cs);
          LiftMeets(j, t, i, AddPath(Children(j)[i], q, v, cs),
            Edited(Abs(Children(j)[i], cs), q, Insert(Abs(v, cs)), cs), cs);
        }
      }
    }
  }

  lemma NoPath(j: Json, v: Json, cs: bool)
    ensures AddPath(j, "", v, cs) == Outcome(9, j) && DetachPath(j, "", cs) == None
  {
  }

  lemma LiftMeets(j: Json, t: string, i: nat, r: Outcome, a: Answer, cs: bool)
    requires '/' !in t && Sound(j, cs) && Step(j, t, cs) == Some(i)
    requires Meets(r, a, Abs(Children(j)[i], cs), cs)
    ensures Follow(Abs(j, cs), t, cs).Some?
    ensures Meets(Lift(j, i, r), Within(Abs(j, cs), t, a, cs), Abs(j, cs), cs)
  {
    UpdateChild(j, t, i, r.doc, cs);
    if a.Failed? {
      UpdateChild(j, t, i, Children(j)[i], cs);
      SetChildSame(j, i);
    }
    hide Step;
    hide Update;
    hide SetChild;
    hide Abs;
    hide Follow;
  }

  /** Taking the item at a pointer out. */
  lemma {:induction false} DetachMeets(j: Json, p: string, cs: bool)
    requires Sound(j, cs) && Plain(j, p, true, cs) && p != ""
    ensures Takes(DetachPath(j, p, cs), Find(Abs(j, cs), p, cs), Edited(Abs(j, cs), p, Erase, cs), cs)
    decreases |p|
  {
    hide DetachPath;
    hide Abs;
    hide Sound;
    hide Token;
    hide Follow;
    hide Step;
    hide PlainHere;
    hide DetachHere;
    hide EraseHere;
    hide Children;
    hide SetChild;
    hide Update;
    var t := Token(p[1..]);
    var q := p[1 + |t|..];
    Parts(p);
    DetachDown(j, t, q, cs);
    if q == "" {
      EraseMeets(j, t, cs);
      assert Find(Abs(j, cs), p, cs) == Follow(Abs(j, cs), t, cs);
    } else {
      FollowStep(j, t, cs);
      if Step(j, t, cs).Some? {
        var i := Step(j, t, cs).value;
        SoundChild(j, i, cs);
        DetachMeets(Children(j)[i], q, cs);
        var r := DetachPath(Children(j)[i], q, cs);
        if r.Some? {
          UpdateChild(j, t, i, r.value.1, cs);
        }
      }
    }
  }

  lemma {:induction false} FindMeets(j: Json, p: string, cs: bool)
    ensures Find(Abs(j, cs), p, cs) ==
      match GetItem(j, p, cs)
      case None => None
      case Some(path) => Some(Abs(At(j, path), cs))
    decreases |p|
  {
    hide Abs;
    hide Token;
    hide Follow;
    hide Step;
    hide Children;
    if p == "" || p[0] != '/' {
    } else {
      var t := Token(p[1..]);
      var q := p[1 + |t|..];
      Parts(p);
      ItemThen(j, t, q, cs);
      FollowStep(j, t, cs);
      if Step(j, t, cs).Some? {
        var i := Step(j, t, cs).value;
        FindMeets(Children(j)[i], q, cs);
        if GetItem(Children(j)[i], q, cs).Some? {
          BelowPath(j, i, GetItem(Children(j)[i], q, cs).value, Null);
        }
      }
    }
  }

  // ---- replacing is removing and adding ----

  lemma ChangeHere(d: Doc, t: string, v: Doc, cs: bool)
    requires Follow(d, t, cs).Some?
    ensures InsertHere(EraseHere(d, t, cs), t, v, cs) == EditHere(d, t, Change(v), cs)
  {
    match d {
      case DArr(es) =>
        var i := Position(t).value;
        assert "-"[0] < '0';
        var w := Without(es, i);
        assert w[..i] + [v] + w[i..] == es[i := v];
      case DObj(m) =>
        OverwriteEntry(m, Fold(Unescaped(t).value, cs), v);
    }
  }

  lemma FollowUpdate(d: Doc, t: string, c: Doc, e: Doc, cs: bool)
    requires Follow(d, t, cs).Some?
    ensures Follow(Update(d, t, c, cs), t, cs) == Some(c)
    ensures Update(Update(d, t, c, cs), t, e, cs) == Update(d, t, e, cs)
  {
  }

  /** Section 4.3 of RFC 6902: a removal at a pointer and then an addition there change the value. */
  lemma {:induction false} EraseInsert(d: Doc, p: string, v: Doc, cs: bool)
    ensures match Edited(d, p, Erase, cs)
      case Failed(_) => Find(d, p, cs).None? || p == "" || p[0] != '/'
      case Done(left) => Find(d, p, cs).Some? && Edited(left, p, Insert(v), cs) == Edited(d, p, Change(v), cs)
    decreases |p|
  {
    hide Follow;
    hide Token;
    hide Update;
    hide EraseHere;
    hide InsertHere;
    if p == "" || p[0] != '/' {
    } else {
      var t := Token(p[1..]);
      var q := p[1 + |t|..];
      Parts(p);
      var c := Follow(d, t, cs);
      if c.Some? {
        if q == "" {
          ChangeHere(d, t, v, cs);
        } else {
          EraseInsert(c.value, q, v, cs);
          var r := Edited(c.value, q, Erase, cs);
          if r.Done? {
            var s := Edited(r.doc, q, Insert(v), cs);
            FollowUpdate(d, t, r.doc, if s.Done? then s.doc else v, cs);
          }
        }
      }
    }
  }

  // ---- whole operations ----

  lemma PlainWithout(j: Json, t: string, i: nat, cs: bool)
    requires PlainHere(j, t, true, cs) && i < |Children(j)|
    ensures PlainHere(WithoutChild(j, i), t, false, cs)
  {
    hide Unescaped;
    hide DecodeInPlace;
  }

  /** A pointer stays plain when the item it leads to has been taken out. */
  lemma {:induction false} PlainLeft(j: Json, p: string, cs: bool)
    requires Plain(j, p, true, cs) && p != "" && DetachPath(j, p, cs).Some?
    ensures Plain(DetachPath(j, p, cs).value.1, p, false, cs)
    decreases |p|
  {
    hide DetachPath;
    hide Token;
    hide Step;
    hide PlainHere;
    hide SetChild;
    hide WithoutChild;
    var t := Token(p[1..]);
    var q := p[1 + |t|..];
    Parts(p);
    DetachDown(j, t, q, cs);
    if q == "" {
      PlainWithout(j, t, RemovalTarget(j, DecodeInPlace(t)).value, cs);
    } else {
      var i := Step(j, t, cs).value;
      var left := DetachPath(Children(j)[i], q, cs).value.1;
      PlainLeft(Children(j)[i], q, cs);
      StepSetChild(j, i, left, t, cs);
    }
  }

  /** The document a failed operation leaves. A replacement or a move has removed its item by then. */
  ghost function Left(d: Doc, op: Op, cs: bool): Doc {
    if op.code == Replace then Rest(d, op.path, cs)
    else if op.code == Move && op.from.Some? && op.from.value.Str? then Rest(d, op.from.value.s, cs)
    else d
  }

  ghost function Rest(d: Doc, p: string, cs: bool): Doc {
    match Edited(d, p, Erase, cs)
    case Failed(_) => d
    case Done(left) => left
  }

  lemma ReplaceMeets(root: Json, op: Op, cs: bool)
    requires op.code == Replace && Sound(root, cs) && SoundOp(op, cs) && Ordinary(root, op, cs)
    ensures Meets(ApplyOp(root, op, cs), Operation(Abs(root, cs), op, cs), Left(Abs(root, cs), op, cs), cs)
  {
    hide DetachPath;
    hide AddPath;
    hide Plain;
    hide Sound;
    hide Abs;
    hide Edited;
    hide Find;
    var d, p := Abs(root, cs), op.path;
    if p == "" {
      assert Edited(d, "", Erase, cs) == Failed(13) by {
        NoEdit(d, cs);
      }
    } else {
      DetachMeets(root, p, cs);
      if op.value.Some? && DetachPath(root, p, cs).Some? {
        var left, v := DetachPath(root, p, cs).value.1, op.value.value;
        PlainLeft(root, p, cs);
        SoundDetach(root, p, cs);
        AddMeets(left, p, v, cs);
        EraseInsert(d, p, Abs(v, cs), cs);
        ChangeDone(d, p, Abs(v, cs), cs);
      }
    }
  }

  lemma NoEdit(d: Doc, cs: bool)
    ensures Edited(d, "", Erase, cs) == Failed(13)
  {
  }

  lemma {:induction false} ChangeDone(d: Doc, p: string, v: Doc, cs: bool)
    requires p != "" && p[0] == '/' && Find(d, p, cs).Some?
    ensures Edited(d, p, Change(v), cs).Done?
    decreases |p|
  {
    hide Follow;
    hide Token;
    hide Update;
    var t := Token(p[1..]);
    var q := p[1 + |t|..];
    Parts(p);
    if q == "" {
    } else {
      ChangeDone(Follow(d, t, cs).value, q, v, cs);
    }
  }

  lemma MoveMeets(root: Json, op: Op, cs: bool)
    requires op.code == Move && Sound(root, cs) && Ordinary(root, op, cs)
    ensures Meets(ApplyOp(root, op, cs), Operation(Abs(root, cs), op, cs), Left(Abs(root, cs), op, cs), cs)
  {
    hide DetachPath;
    hide AddPath;
    hide Plain;
    hide Sound;
    hide Abs;
    hide Edited;
    hide Find;
    if op.from.Some? && op.from.value.Str? {
      var f := op.from.value.s;
      if f == "" {
        NoEdit(Abs(root, cs), cs);
        NoPath(root, root, cs);
      } else {
        DetachMeets(root, f, cs);
        SoundDetach(root, f, cs);
        if DetachPath(root, f, cs).Some? {
          AddMeets(DetachPath(root, f, cs).value.1, op.path, DetachPath(root, f, cs).value.0, cs);
        }
      }
    }
  }

  lemma CopyMeets(root: Json, op: Op, cs: bool)
    requires op.code == Copy && Sound(root, cs) && Ordinary(root, op, cs)
    ensures Meets(ApplyOp(root, op, cs), Operation(Abs(root, cs), op, cs), Left(Abs(root, cs), op, cs), cs)
  {
    hide AddPath;
    hide Plain;
    hide Sound;
    hide Abs;
    hide Edited;
    hide Find;
    hide GetItem;
    if op.from.Some? && op.from.value.Str? {
      var g := GetItem(root, op.from.value.s, cs);
      FindMeets(root, op.from.value.s, cs);
      if g.Some? {
        AddMeets(root, op.path, At(root, g.value), cs);
      }
    }
  }

  lemma TestMeets(root: Json, op: Op, cs: bool)
    requires op.code == Test && Ordinary(root, op, cs)
    ensures Meets(ApplyOp(root, op, cs), Operation(Abs(root, cs), op, cs), Left(Abs(root, cs), op, cs), cs)
  {
    hide Abs;
    hide Find;
    hide GetItem;
    hide CompareTwo;
    hide Regular;
    FindMeets(root, op.path, cs);
    var g := GetItem(root, op.path, cs);
    if g.Some? && op.value.Some? {
      var found, v := At(root, g.value), op.value.value;
      RegularSound(root, cs);
      RegularSound(v, cs);
      RegularAt(root, g.value, cs);
      SoundAt(root, g.value, cs);
      SameAnswer(found, v, cs);
      SortedDecides(found, v, cs);
      SoundCompared(found, v, cs);
      PutSame(root, g.value, CompareTwo(found, v, cs).left, cs);
    }
  }

  lemma {:induction false} RegularAt(j: Json, path: seq<nat>, cs: bool)
    requires Regular(j, cs) && ValidPath(j, path)
    ensures Regular(At(j, path), cs)
    decreases |path|
  {
    if path == [] {
    } else {
      RegularChild(j, path[0], cs);
      RegularAt(Children(j)[path[0]], path[1..], cs);
    }
  }

  lemma RegularChild(j: Json, i: nat, cs: bool)
    requires Regular(j, cs) && i < |Children(j)|
    ensures Regular(Children(j)[i], cs)
  {
  }

  /** An equal item in the place of another. */
  lemma {:induction false} PutSame(j: Json, path: seq<nat>, v: Json, cs: bool)
    requires Sound(j, cs) && ValidPath(j, path) && Abs(v, cs) == Abs(At(j, path), cs)
    ensures Abs(Put(j, path, v), cs) == Abs(j, cs)
    decreases |path|
  {
    if path == [] {
    } else {
      var i := path[0];
      SoundChild(j, i, cs);
      PutSame(Children(j)[i], path[1..], v, cs);
      SetChildEqual(j, i, Put(Children(j)[i], path[1..], v), cs);
    }
  }

  lemma SetChildEqual(j: Json, i: nat, c: Json, cs: bool)
    requires Sound(j, cs) && i < |Children(j)| && Abs(c, cs) == Abs(Children(j)[i], cs)
    ensures Abs(SetChild(j, i, c), cs) == Abs(j, cs)
  {
    if j.Obj? {
      ValueEqual(j.members, i, c, cs);
    } else {
      assert Abs(SetChild(j, i, c), cs).es == Abs(j, cs).es;
    }
  }

  lemma ValueEqual(ms: seq<Member<Json>>, i: nat, c: Json, cs: bool)
    requires DistinctKeys(ms, cs) && i < |ms| && Abs(c, cs) == Abs(ms[i].value, cs)
    ensures AbsMembers(WithValue(ms, i, c), cs) == AbsMembers(ms, cs)
  {
    AbsWithValue(ms, i, c, cs);
    FindOwn(ms, ms[i].key, i, cs);
    AbsAt(ms, ms[i].key, cs);
    hide Abs;
    hide AbsMembers;
    hide Fold;
    hide WithValue;
  }

  lemma AddOpMeets(root: Json, op: Op, cs: bool)
    requires op.code == Add && Sound(root, cs) && SoundOp(op, cs) && Ordinary(root, op, cs)
    ensures Meets(ApplyOp(root, op, cs), Operation(Abs(root, cs), op, cs), Left(Abs(root, cs), op, cs), cs)
  {
    hide AddPath;
    hide Plain;
    hide Sound;
    hide Abs;
    hide Edited;
    if op.value.Some? {
      AddMeets(root, op.path, op.value.value, cs);
    }
  }

  lemma RemoveMeets(root: Json, op: Op, cs: bool)
    requires op.code == Remove && Sound(root, cs) && Ordinary(root, op, cs)
    ensures Meets(ApplyOp(root, op, cs), Operation(Abs(root, cs), op, cs), Left(Abs(root, cs), op, cs), cs)
  {
    assert Abs(Invalid, cs) == DInvalid;
    hide DetachPath;
    hide Plain;
    hide Sound;
    hide Abs;
    hide Edited;
    hide Find;
    if op.path != "" {
      DetachMeets(root, op.path, cs);
    }
  }

  /** One operation: the status and the document that the standard says, failure or not. */
  lemma OperationMeets(root: Json, op: Op, cs: bool)
    requires Sound(root, cs) && SoundOp(op, cs) && Ordinary(root, op, cs)
    ensures Meets(ApplyOp(root, op, cs), Operation(Abs(root, cs), op, cs), Left(Abs(root, cs), op, cs), cs)
  {
    hide *;
    match op.code {
      case Add => AddOpMeets(root, op, cs);
      case Remove => RemoveMeets(root, op, cs);
      case Replace => ReplaceMeets(root, op, cs);
      case Move => MoveMeets(root, op, cs);
      case Copy => CopyMeets(root, op, cs);
      case Test => TestMeets(root, op, cs);
    }
  }

  // ---- a list of patches ----

  /** Section 4 of RFC 6902. */
  ghost function Called(name: string): Option<Opcode> {
    if name == "add" then Some(Add)
    else if name == "remove" then Some(Remove)
    else if name == "replace" then Some(Replace)
    else if name == "move" then Some(Move)
    else if name == "copy" then Some(Copy)
    else if name == "test" then Some(Test)
    else None
  }

  /** The operation that a patch object asks for. */
  ghost function Read(patch: Json, cs: bool): Option<Op> {
    match (Lookup(patch, "path", cs), Lookup(patch, "op", cs))
    case (Some(Str(path)), Some(Str(name))) =>
      var code := Called(name);
      if code.None? then None
      else Some(Op(code.value, path, Lookup(patch, "value", cs), Lookup(patch, "from", cs)))
    case _ => None
  }

  ghost predicate OrdinaryRun(root: Json, patches: seq<Json>, cs: bool)
    decreases |patches|
  {
    patches == [] || (
      && (Read(patches[0], cs).Some? ==> Ordinary(root, Read(patches[0], cs).value, cs))
      && OrdinaryRun(ApplyPatch(root, patches[0], cs).doc, patches[1..], cs))
  }

  /** The patches in order, each on what the one before has made, up to the first failure: section 3 of
      RFC 6902. */
  ghost function Operations(d: Doc, patches: seq<Json>, cs: bool): Answer
    decreases |patches|
  {
    if patches == [] then Done(d)
    else
      var op := Read(patches[0], cs);
      if op.None? then Failed(if HasPath(patches[0], cs) then 3 else 2)
      else
        match Operation(d, op.value, cs)
        case Failed(status) => Failed(status)
        case Done(e) => Operations(e, patches[1..], cs)
  }

  ghost predicate HasPath(patch: Json, cs: bool) {
    var path := Lookup(patch, "path", cs);
    path.Some? && path.value.Str?
  }

  lemma LookupSound(patch: Json, name: string, cs: bool)
    requires Sound(patch, cs)
    ensures Lookup(patch, name, cs).Some? ==> Sound(Lookup(patch, name, cs).value, cs)
  {
  }

  lemma PatchMeets(root: Json, patch: Json, cs: bool)
    requires Sound(root, cs) && Sound(patch, cs)
    requires Read(patch, cs).Some? ==> Ordinary(root, Read(patch, cs).value, cs)
    ensures var r := ApplyPatch(root, patch, cs);
      match Read(patch, cs)
      case None => r == Outcome(if HasPath(patch, cs) then 3 else 2, root)
      case Some(op) => Meets(r, Operation(Abs(root, cs), op, cs), Left(Abs(root, cs), op, cs), cs)
  {
    hide *;
    ReadPatch(root, patch, cs);
    if Read(patch, cs).Some? {
      OperationMeets(root, Read(patch, cs).value, cs);
    }
  }

  lemma ReadPatch(root: Json, patch: Json, cs: bool)
    requires Sound(patch, cs)
    ensures match Read(patch, cs)
      case None => ApplyPatch(root, patch, cs) == Outcome(if HasPath(patch, cs) then 3 else 2, root)
      case Some(op) => ApplyPatch(root, patch, cs) == ApplyOp(root, op, cs) && SoundOp(op, cs)
  {
    LookupSound(patch, "value", cs);
    OpcodeRead(patch, cs);
    hide Lookup;
    hide DecodeOpcode;
    hide Called;
    hide ApplyOp;
    hide Sound;
  }

  lemma OpcodeRead(patch: Json, cs: bool)
    ensures var op := Lookup(patch, "op", cs);
      DecodeOpcode(patch, cs) == if op.Some? && op.value.Str? then Called(op.value.s) else None
  {
    hide Lookup;
  }

  /** A list of patches has the status of the standard, and if they succeed its document. */
  lemma {:induction false} PatchesMeet(root: Json, patches: seq<Json>, cs: bool)
    requires Sound(root, cs) && Sound(Arr(patches), cs) && OrdinaryRun(root, patches, cs)
    ensures var r := ApplyPatches(root, patches, cs);
      match Operations(Abs(root, cs), patches, cs)
      case Done(d) => r.status == 0 && Abs(r.doc, cs) == d
      case Failed(status) => r.status == status != 0
    decreases |patches|
  {
    hide ApplyPatch;
    hide Read;
    hide Operation;
    hide Abs;
    hide Left;
    hide Ordinary;
    if patches == [] {
    } else {
      assert Sound(patches[0], cs) && Sound(Arr(patches[1..]), cs);
      hide Sound;
      var next := ApplyPatch(root, patches[0], cs).doc;
      PatchMeets(root, patches[0], cs);
      SoundAfterPatch(root, patches[0], cs);
      PatchesMeet(next, patches[1..], cs);
    }
  }

  // ---- where it does not ----

  /** An addition under a key: the code does what the standard says exactly if the key is decodable, or both
      keys, the one meant and the one the code reads, have that value already. */
  lemma InsertAgrees(ms: seq<Member<Json>>, k: string, v: Json, cs: bool)
    requires DistinctKeys(ms, cs)
    ensures var read := DecodeInPlace(EncodeToken(k));
      var r := AddChild(Obj(ms), read, v, cs);
      var m, w := AbsMembers(ms, cs), Abs(v, cs);
      Abs(r.doc, cs) == DObj(m[Fold(k, cs) := w]) <==>
      Decodable(k) || Entry(m, Fold(k, cs)) == Entry(m, Fold(read, cs)) == Some(w)
  {
    var read := DecodeInPlace(EncodeToken(k));
    InsertMember(ms, read, v, cs);
    DecodedSameKey(k, cs);
    hide Decodable;
    hide AddChild;
    hide DecodeInPlace;
    hide Fold;
    hide AbsMembers;
    TwoUpdates(AbsMembers(ms, cs), Fold(read, cs), Fold(k, cs), Abs(v, cs));
  }

  lemma TwoUpdates(m: map<string, Doc>, x: string, y: string, w: Doc)
    ensures m[x := w] == m[y := w] <==> x == y || Entry(m, x) == Entry(m, y) == Some(w)
  {
    assert x in m[x := w] && y in m[y := w];
    if m[x := w] == m[y := w] && x != y {
      assert m[y := w][x] == m[x] && m[x := w][y] == m[y];
    }
    if Entry(m, x) == Entry(m, y) == Some(w) {
      assert m[x := w] == m == m[y := w];
    }
  }

  /** A removal by key: the code does what the standard says exactly if no member in front of the one meant
      differs from it in case only. */
  lemma RemovalAgrees(ms: seq<Member<Json>>, k: string, cs: bool)
    requires DistinctKeys(ms, cs)
    ensures var i, g, m := FindKey(ms, k, CI), FindKey(ms, k, cs), AbsMembers(ms, cs);
      (if i < |ms| then g < |ms| && AbsMembers(Without(ms, i), cs) == m - {Fold(k, cs)} else g == |ms|) <==> i == g
  {
    var i, g, m := FindKey(ms, k, CI), FindKey(ms, k, cs), AbsMembers(ms, cs);
    FindIgnoringCase(ms, k, cs);
    AbsAt(ms, k, cs);
    if i < |ms| {
      AbsWithout(ms, i, cs);
      FindFirst(ms, ms[i].key, cs, i);
      AbsAt(ms, ms[i].key, cs);
      if Fold(ms[i].key, cs) == Fold(k, cs) {
        FindFirst(ms, k, cs, i);
      } else {
        assert Fold(ms[i].key, cs) in m - {Fold(k, cs)};
      }
    }
  }
}
