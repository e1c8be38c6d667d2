/** `compare_json` with what it does to its arguments: it sorts the members of every object it visits,
    and stops at the first difference. A sorted list of items is whole, its head pointing back to its
    tail, only if neither end has moved. */
module Arrange {
  import opened Text
  import opened Json
  import opened Sorting
  import opened Compare

  /** The answer, what has become of the two documents, and whether the lists visited are still whole. */
  datatype Compared = Compared(same: bool, left: Json, right: Json, leftWhole: bool, rightWhole: bool)

  /** The same for two lists of children. */
  datatype Walked<T> = Walked(same: bool, left: seq<T>, right: seq<T>, leftWhole: bool, rightWhole: bool)

  /** Sorting moves neither end: the first key is below all others, and the last above. */
  predicate EndsStay<T>(ms: seq<Member<T>>, cs: bool) {
    FirstLowest(ms, cs) && LastHighest(ms, cs)
  }

  ghost function CompareTwo(a: Json, b: Json, cs: bool): (r: Compared)
    decreases a, 1
  {
    match (a, b)
    case (Number(x), Number(y)) => Compared(ValueInt(x) == ValueInt(y) && CompareDouble(x, y), a, b, true, true)
    case (Str(x), Str(y)) => Compared(x == y, a, b, true, true)
    case (Arr(x), Arr(y)) =>
      var w := WalkElems(a, x, y, cs);
      Compared(w.same, Arr(w.left), Arr(w.right), w.leftWhole, w.rightWhole)
    case (Obj(x), Obj(y)) =>
      SortedKept(a, cs);
      var w := WalkMembers(a, SortList(x, cs), SortList(y, cs), cs);
      Compared(w.same, Obj(w.left), Obj(w.right), EndsStay(x, cs) && w.leftWhole, EndsStay(y, cs) && w.rightWhole)
    case (Invalid, Invalid) => Compared(true, a, b, true, true)
    case (Null, Null) => Compared(true, a, b, true, true)
    case (False, False) => Compared(true, a, b, true, true)
    case (True, True) => Compared(true, a, b, true, true)
    case _ => Compared(false, a, b, true, true)
  }

  lemma SortedKept(a: Json, cs: bool)
    requires a.Obj?
    ensures forall m :: m in SortList(a.members, cs) ==> m in a.members
  {
    forall m | m in SortList(a.members, cs) ensures m in a.members {
      SortMembership(a.members, cs, m);
    }
  }

  /** Two arrays; `x` holds elements of `a`. */
  ghost function WalkElems(a: Json, x: seq<Json>, y: seq<Json>, cs: bool): (r: Walked<Json>)
    requires a.Arr? && forall e :: e in x ==> e in a.elems
    ensures |r.left| == |x| && |r.right| == |y|
    decreases a, 0, |x|
  {
    if x == [] || y == [] then Walked(x == [] && y == [], x, y, true, true)
    else
      assert x[0] in a.elems;
      var c := CompareTwo(x[0], y[0], cs);
      var w := if c.same then WalkElems(a, x[1..], y[1..], cs) else Walked(false, x[1..], y[1..], true, true);
      Walked(w.same, [c.left] + w.left, [c.right] + w.right, c.leftWhole && w.leftWhole, c.rightWhole && w.rightWhole)
  }

  /** Two sorted member lists; `x` holds members of `a`. */
  ghost function WalkMembers(a: Json, x: seq<Member<Json>>, y: seq<Member<Json>>, cs: bool): (r: Walked<Member<Json>>)
    requires a.Obj? && forall m :: m in x ==> m in a.members
    ensures |r.left| == |x| && |r.right| == |y|
    decreases a, 0, |x|
  {
    if x == [] || y == [] then Walked(x == [] && y == [], x, y, true, true)
    else if !SameKey(x[0].key, y[0].key, cs) then Walked(false, x, y, true, true)
    else
      assert x[0] in a.members;
      var c := CompareTwo(x[0].value, y[0].value, cs);
      var w := if c.same then WalkMembers(a, x[1..], y[1..], cs) else Walked(false, x[1..], y[1..], true, true);
      Walked(w.same, [x[0].(value := c.left)] + w.left, [y[0].(value := c.right)] + w.right,
        c.leftWhole && w.leftWhole, c.rightWhole && w.rightWhole)
  }

  // ---- the answer ----

  /** The answer is that of the comparison on values. */
  lemma {:induction false} SameAnswer(a: Json, b: Json, cs: bool)
    ensures CompareTwo(a, b, cs).same == CompareSorted(a, b, cs)
    decreases a, 1
  {
    match (a, b) {
      case (Arr(x), Arr(y)) =>
        ElemsAnswer(a, x, y, cs);
      case (Obj(x), Obj(y)) =>
        SortedKept(a, cs);
        MembersAnswer(a, SortList(x, cs), SortList(y, cs), cs);
      case _ =>
    }
  }

  lemma {:induction false} ElemsAnswer(a: Json, x: seq<Json>, y: seq<Json>, cs: bool)
    requires a.Arr? && forall e :: e in x ==> e in a.elems
    ensures WalkElems(a, x, y, cs).same <==>
      |x| == |y| && forall i :: 0 <= i < |x| ==> CompareSorted(x[i], y[i], cs)
    decreases a, 0, |x|
  {
    if x == [] || y == [] {
    } else {
      assert x[0] in a.elems;
      SameAnswer(x[0], y[0], cs);
      ElemsAnswer(a, x[1..], y[1..], cs);
      hide CompareSorted;
      hide CompareTwo;
      assert forall i :: 0 < i < |x| ==> x[i] == x[1..][i - 1];
      assert forall i :: 0 < i < |y| ==> y[i] == y[1..][i - 1];
    }
  }

  lemma {:induction false} MembersAnswer(a: Json, x: seq<Member<Json>>, y: seq<Member<Json>>, cs: bool)
    requires a.Obj? && forall m :: m in x ==> m in a.members
    ensures WalkMembers(a, x, y, cs).same <==>
      |x| == |y| && forall i :: 0 <= i < |x| ==>
        SameKey(x[i].key, y[i].key, cs) && CompareSorted(x[i].value, y[i].value, cs)
    decreases a, 0, |x|
  {
    hide SameKey;
    if x == [] || y == [] {
    } else {
      assert x[0] in a.members;
      SameAnswer(x[0].value, y[0].value, cs);
      MembersAnswer(a, x[1..], y[1..], cs);
      hide CompareSorted;
      hide CompareTwo;
      assert forall i :: 0 < i < |x| ==> x[i] == x[1..][i - 1];
      assert forall i :: 0 < i < |y| ==> y[i] == y[1..][i - 1];
    }
  }

  // ---- when the lists stay whole ----

  /** Sorting moves no end of any list in the document. */
  ghost predicate EndsEverywhere(j: Json, cs: bool) {
    match j
    case Arr(es) => forall i :: 0 <= i < |es| ==> EndsEverywhere(es[i], cs)
    case Obj(ms) => EndsStay(ms, cs) && forall i :: 0 <= i < |ms| ==> EndsEverywhere(ms[i].value, cs)
    case _ => true
  }

  ghost predicate EndsIn(ms: seq<Member<Json>>, cs: bool) {
    forall i :: 0 <= i < |ms| ==> EndsEverywhere(ms[i].value, cs)
  }

  ghost predicate EndsOf(es: seq<Json>, cs: bool) {
    forall i :: 0 <= i < |es| ==> EndsEverywhere(es[i], cs)
  }

  /** What is claimed of one side: lists that cannot move stay whole, and no others after a full walk. */
  predicate Kept(same: bool, whole: bool, ends: bool) {
    (ends ==> whole) && (same ==> (whole <==> ends))
  }

  lemma SortedEnds(ms: seq<Member<Json>>, cs: bool)
    ensures EndsIn(SortList(ms, cs), cs) <==> EndsIn(ms, cs)
  {
    var s := SortList(ms, cs);
    hide EndsEverywhere;
    forall i | 0 <= i < |s| ensures s[i] in ms {
      SortMembership(ms, cs, s[i]);
    }
    forall i | 0 <= i < |ms| ensures ms[i] in s {
      SortMembership(ms, cs, ms[i]);
    }
    hide SortList;
  }

  /** A comparison that answers yes leaves the lists of a document whole exactly if sorting moves no end
      of any of them; one that answers no, at least then. */
  lemma {:induction false} WholeAnswer(a: Json, b: Json, cs: bool)
    ensures var c := CompareTwo(a, b, cs);
      && Kept(c.same, c.leftWhole, EndsEverywhere(a, cs)) && Kept(c.same, c.rightWhole, EndsEverywhere(b, cs))
    decreases a, 1
  {
    match (a, b) {
      case (Arr(x), Arr(y)) =>
        WholeElems(a, x, y, cs);
      case (Obj(x), Obj(y)) =>
        SortedKept(a, cs);
        SortedEnds(x, cs);
        SortedEnds(y, cs);
        WholeMembers(a, SortList(x, cs), SortList(y, cs), cs);
        hide SortList;
        hide EndsStay;
      case _ =>
    }
  }

  lemma {:induction false} WholeElems(a: Json, x: seq<Json>, y: seq<Json>, cs: bool)
    requires a.Arr? && forall e :: e in x ==> e in a.elems
    ensures var w := WalkElems(a, x, y, cs);
      Kept(w.same, w.leftWhole, EndsOf(x, cs)) && Kept(w.same, w.rightWhole, EndsOf(y, cs))
    decreases a, 0, |x|
  {
    hide EndsEverywhere;
    if x == [] || y == [] {
    } else {
      assert x[0] in a.elems;
      WholeAnswer(x[0], y[0], cs);
      WholeElems(a, x[1..], y[1..], cs);
      hide CompareTwo;
      EndsFirst(x, cs);
      EndsFirst(y, cs);
      hide EndsOf;
    }
  }

  lemma EndsFirst(x: seq<Json>, cs: bool)
    requires x != []
    ensures EndsOf(x, cs) <==> EndsEverywhere(x[0], cs) && EndsOf(x[1..], cs)
  {
    hide EndsEverywhere;
    assert forall i :: 0 < i < |x| ==> x[i] == x[1..][i - 1];
  }

  lemma {:induction false} WholeMembers(a: Json, x: seq<Member<Json>>, y: seq<Member<Json>>, cs: bool)
    requires a.Obj? && forall m :: m in x ==> m in a.members
    ensures var w := WalkMembers(a, x, y, cs);
      Kept(w.same, w.leftWhole, EndsIn(x, cs)) && Kept(w.same, w.rightWhole, EndsIn(y, cs))
    decreases a, 0, |x|
  {
    hide EndsEverywhere;
    hide SameKey;
    if x == [] || y == [] {
    } else {
      assert x[0] in a.members;
      WholeAnswer(x[0].value, y[0].value, cs);
      WholeMembers(a, x[1..], y[1..], cs);
      hide CompareTwo;
      EndsMember(x, cs);
      EndsMember(y, cs);
      hide EndsIn;
    }
  }

  lemma EndsMember(x: seq<Member<Json>>, cs: bool)
    requires x != []
    ensures EndsIn(x, cs) <==> EndsEverywhere(x[0].value, cs) && EndsIn(x[1..], cs)
  {
    hide EndsEverywhere;
    assert forall i :: 0 < i < |x| ==> x[i] == x[1..][i - 1];
  }
}
