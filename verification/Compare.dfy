/** The two comparisons of documents: `compare_json`, which sorts the members of both objects and
    walks them together, and `cJSON_Compare`, which looks every member up in the other object. */
module Compare {
  import opened Text
  import opened Json
  import opened Sorting

  function AbsReal(a: real): real {
    if a < 0.0 then -a else a
  }

  /** The tolerance is the larger magnitude times DBL_EPSILON, which is 2 to the power -52. */
  predicate CompareDouble(a: real, b: real) {
    var max := if AbsReal(a) > AbsReal(b) then AbsReal(a) else AbsReal(b);
    AbsReal(a - b) <= max / 4503599627370496.0
  }

  /** Distinct integers are at least 1 apart, 32-bit ones far outside the tolerance. */
  lemma CompareDoubleInt(a: real, b: real)
    requires IsInt32(a) && IsInt32(b)
    ensures CompareDouble(a, b) <==> a == b
  {
    var m, n := a.Floor, b.Floor;
    assert a == m as real && b == n as real;
    if m < n {
      assert b - a == (n - m) as real;
    } else if n < m {
      assert a - b == (m - n) as real;
    }
  }

  /** The tolerance is relative: two numbers of one sign are equal if the quotient of their magnitudes is at
      least 1 less 2 to the power -52. Numbers of two signs are not, and zero equals only itself. */
  lemma CompareDoubleRelative(a: real, b: real)
    requires 0.0 < AbsReal(a) <= AbsReal(b)
    ensures CompareDouble(a, b) <==> (a > 0.0 <==> b > 0.0) && AbsReal(a) / AbsReal(b) >= 1.0 - 1.0 / 4503599627370496.0
    ensures CompareDouble(a, b) <==> CompareDouble(b, a)
    ensures !CompareDouble(0.0, b) && CompareDouble(0.0, 0.0)
  {
    var x, y := AbsReal(a), AbsReal(b);
    if a > 0.0 <==> b > 0.0 {
      assert AbsReal(a - b) == y - x;
      QuotientAtLeast(x, y, 1.0 - 1.0 / 4503599627370496.0);
    }
  }

  lemma QuotientAtLeast(x: real, y: real, q: real)
    requires y > 0.0
    ensures x / y >= q <==> x >= q * y
  {
    assert x == x / y * y;
    if x / y >= q {
      assert x / y * y >= q * y;
    } else {
      assert x / y * y < q * y;
    }
  }

  /** `compare_json`. */
  ghost predicate CompareSorted(a: Json, b: Json, cs: bool)
    decreases a
  {
    match (a, b)
    case (Number(x), Number(y)) => ValueInt(x) == ValueInt(y) && CompareDouble(x, y)
    case (Str(x), Str(y)) => x == y
    case (Arr(x), Arr(y)) => |x| == |y| && forall i :: 0 <= i < |x| ==> CompareSorted(x[i], y[i], cs)
    case (Obj(x), Obj(y)) => CompareMembers(a, SortList(x, cs), SortList(y, cs), cs)
    case (Invalid, Invalid) => true
    case (Null, Null) => true
    case (False, False) => true
    case (True, True) => true
    case _ => false
  }

  /** The walk over two sorted member lists; `a` is the object whose members `x` lists. */
  ghost predicate CompareMembers(a: Json, x: seq<Member<Json>>, y: seq<Member<Json>>, cs: bool)
    requires a.Obj? && x == SortList(a.members, cs)
    decreases a, 0
  {
    |x| == |y| && forall i :: 0 <= i < |x| ==>
      (SortMembership(a.members, cs, x[i]);
       SameKey(x[i].key, y[i].key, cs) && CompareSorted(x[i].value, y[i].value, cs))
  }

  /** `cJSON_Compare`, except that it does not see when both arguments are one item. */
  ghost predicate CompareLookup(a: Json, b: Json, cs: bool)
    decreases Size(a) + Size(b), 1
  {
    SizeChildren(a);
    match (a, b)
    case (Number(x), Number(y)) => CompareDouble(x, y)
    case (Str(x), Str(y)) => x == y
    case (Arr(x), Arr(y)) =>
      SizeChildren(b);
      |x| == |y| && forall i :: 0 <= i < |x| ==> CompareLookup(x[i], y[i], cs)
    case (Obj(x), Obj(y)) => FoundIn(a, b, cs) && FoundIn(b, a, cs)
    case (Null, Null) => true
    case (False, False) => true
    case (True, True) => true
    case _ => false
  }

  /** One of its two loops: each member of `a` is found in `b` and compares equal there. */
  ghost predicate FoundIn(a: Json, b: Json, cs: bool)
    requires a.Obj? && b.Obj?
    decreases Size(a) + Size(b), 0
  {
    SizeChildren(a);
    SizeChildren(b);
    forall i :: 0 <= i < |a.members| ==>
      var j := FindKey(b.members, a.members[i].key, cs);
      j < |b.members| && CompareLookup(a.members[i].value, b.members[j].value, cs)
  }

  // ---- both decide whether the documents are equal ----

  /** Two sorted lists denote the same map exactly when they agree position by position. */
  lemma {:induction false} ZipDecides(x: seq<Member<Json>>, y: seq<Member<Json>>, cs: bool)
    requires Ascending(x, cs) && DistinctKeys(x, cs) && Ascending(y, cs) && DistinctKeys(y, cs)
    ensures AbsMembers(x, cs) == AbsMembers(y, cs) <==>
      |x| == |y| && forall i :: 0 <= i < |x| ==>
        SameKey(x[i].key, y[i].key, cs) && Abs(x[i].value, cs) == Abs(y[i].value, cs)
  {
    if x != [] && y != [] {
      var k, l := Fold(x[0].key, cs), Fold(y[0].key, cs);
      LexTrichotomy(k, l);
      AbsAt(x, x[0].key, cs);
      AbsAt(y, y[0].key, cs);
      if LexLess(k, l) {
        AscendingAbsent(y, x[0].key, cs);
        AbsAt(y, x[0].key, cs);
      } else if LexLess(l, k) {
        AscendingAbsent(x, y[0].key, cs);
        AbsAt(x, y[0].key, cs);
      } else {
        ZipDecides(x[1..], y[1..], cs);
        ZipTail(x, y, cs);
      }
    } else if x != [] {
      assert Fold(x[0].key, cs) in AbsMembers(x, cs);
    } else if y != [] {
      assert Fold(y[0].key, cs) in AbsMembers(y, cs);
    }
  }

  /** With equal first keys the maps agree when the first values and the rests do. */
  lemma ZipTail(x: seq<Member<Json>>, y: seq<Member<Json>>, cs: bool)
    requires x != [] && y != [] && SameKey(x[0].key, y[0].key, cs)
    requires DistinctKeys(x, cs) && DistinctKeys(y, cs)
    ensures AbsMembers(x, cs) == AbsMembers(y, cs) <==>
      Abs(x[0].value, cs) == Abs(y[0].value, cs) && AbsMembers(x[1..], cs) == AbsMembers(y[1..], cs)
  {
    hide Abs;
    hide Fold;
    var f := Fold(x[0].key, cs);
    var s, t := AbsMembers(x[1..], cs), AbsMembers(y[1..], cs);
    AbsAt(x[1..], x[0].key, cs);
    AbsAt(y[1..], y[0].key, cs);
    assert f !in s && f !in t;
    assert s == AbsMembers(x, cs) - {f};
    assert t == AbsMembers(y, cs) - {f};
    assert AbsMembers(x, cs)[f] == Abs(x[0].value, cs);
    assert AbsMembers(y, cs)[f] == Abs(y[0].value, cs);
  }

  /** `compare_json` answers yes exactly on equal documents. */
  lemma {:induction false} SortedDecides(a: Json, b: Json, cs: bool)
    requires Regular(a, cs) && Regular(b, cs)
    ensures CompareSorted(a, b, cs) <==> Abs(a, cs) == Abs(b, cs)
    decreases a, 1
  {
    match (a, b) {
      case (Number(x), Number(y)) =>
        CompareDoubleInt(x, y);
      case (Arr(x), Arr(y)) =>
        forall i | 0 <= i < |x| && |x| == |y|
          ensures CompareSorted(x[i], y[i], cs) <==> Abs(x[i], cs) == Abs(y[i], cs)
        {
          SortedDecides(x[i], y[i], cs);
        }
        ElemsEqual(x, y, cs);
      case (Obj(x), Obj(y)) =>
        SortedObjectsDecide(a, b, cs);
      case _ =>
    }
  }

  lemma {:induction false} SortedObjectsDecide(a: Json, b: Json, cs: bool)
    requires a.Obj? && b.Obj? && Regular(a, cs) && Regular(b, cs)
    ensures CompareSorted(a, b, cs) <==> Abs(a, cs) == Abs(b, cs)
    decreases a, 0
  {
    var x, y := a.members, b.members;
    var s, t := SortList(x, cs), SortList(y, cs);
    SortDistinct(x, cs);
    SortDistinct(y, cs);
    hide SortList;
    hide Ascending;
    hide DistinctKeys;
    forall i | 0 <= i < |s| && |s| == |t|
      ensures CompareSorted(s[i].value, t[i].value, cs) <==> Abs(s[i].value, cs) == Abs(t[i].value, cs)
    {
      SortMembership(x, cs, s[i]);
      SortMembership(y, cs, t[i]);
      SortedDecides(s[i].value, t[i].value, cs);
    }
    ZipDecides(s, t, cs);
    hide AbsMembers;
  }

  lemma ElemsEqual(x: seq<Json>, y: seq<Json>, cs: bool)
    ensures Abs(Arr(x), cs) == Abs(Arr(y), cs) <==>
      |x| == |y| && forall i :: 0 <= i < |x| ==> Abs(x[i], cs) == Abs(y[i], cs)
  {
    var s, t := Abs(Arr(x), cs).es, Abs(Arr(y), cs).es;
    assert forall i :: 0 <= i < |x| ==> s[i] == Abs(x[i], cs);
    assert forall i :: 0 <= i < |y| ==> t[i] == Abs(y[i], cs);
  }

  /** Looking every member of one list up in the other, both ways, decides whether the maps agree. */
  lemma LookupDecides(x: seq<Member<Json>>, y: seq<Member<Json>>, cs: bool)
    requires DistinctKeys(x, cs) && DistinctKeys(y, cs)
    ensures AbsMembers(x, cs) == AbsMembers(y, cs) <==> Covers(x, y, cs) && Covers(y, x, cs)
  {
    var s, t := AbsMembers(x, cs), AbsMembers(y, cs);
    if s == t {
      CoveredBy(x, y, cs);
      CoveredBy(y, x, cs);
    }
    if Covers(x, y, cs) && Covers(y, x, cs) {
      forall f | f in s ensures f in t && t[f] == s[f] {
        CoversAt(x, y, f, cs);
      }
      forall f | f in t ensures f in s {
        CoversAt(y, x, f, cs);
      }
    }
  }

  /** Each member of `x` has a partner of equal value in `y`. */
  ghost predicate Covers(x: seq<Member<Json>>, y: seq<Member<Json>>, cs: bool) {
    forall i :: 0 <= i < |x| ==>
      var j := FindKey(y, x[i].key, cs); j < |y| && Abs(x[i].value, cs) == Abs(y[j].value, cs)
  }

  lemma CoveredBy(x: seq<Member<Json>>, y: seq<Member<Json>>, cs: bool)
    requires DistinctKeys(x, cs) && AbsMembers(x, cs) == AbsMembers(y, cs)
    ensures Covers(x, y, cs)
  {
    forall i | 0 <= i < |x|
      ensures var j := FindKey(y, x[i].key, cs); j < |y| && Abs(x[i].value, cs) == Abs(y[j].value, cs)
    {
      FindOwn(x, x[i].key, i, cs);
      AbsAt(x, x[i].key, cs);
      AbsAt(y, x[i].key, cs);
    }
  }

  lemma CoversAt(x: seq<Member<Json>>, y: seq<Member<Json>>, f: string, cs: bool)
    requires DistinctKeys(x, cs) && Covers(x, y, cs) && f in AbsMembers(x, cs)
    ensures f in AbsMembers(y, cs) && AbsMembers(y, cs)[f] == AbsMembers(x, cs)[f]
  {
    var i := AbsKey(x, f, cs);
    FindOwn(x, x[i].key, i, cs);
    AbsAt(x, x[i].key, cs);
    AbsAt(y, x[i].key, cs);
  }

  lemma ObjectsEqual(x: seq<Member<Json>>, y: seq<Member<Json>>, cs: bool)
    ensures Abs(Obj(x), cs) == Abs(Obj(y), cs) <==> AbsMembers(x, cs) == AbsMembers(y, cs)
  {
  }

  /** `cJSON_Compare` answers yes exactly on equal documents. */
  lemma {:induction false} LookupCorrect(a: Json, b: Json, cs: bool)
    requires Regular(a, cs) && Regular(b, cs)
    ensures CompareLookup(a, b, cs) <==> Abs(a, cs) == Abs(b, cs)
    decreases Size(a) + Size(b), 1
  {
    SizeChildren(a);
    SizeChildren(b);
    match (a, b) {
      case (Number(x), Number(y)) =>
        CompareDoubleInt(x, y);
      case (Arr(x), Arr(y)) =>
        forall i | 0 <= i < |x| && |x| == |y|
          ensures CompareLookup(x[i], y[i], cs) <==> Abs(x[i], cs) == Abs(y[i], cs)
        {
          LookupCorrect(x[i], y[i], cs);
        }
        ElemsEqual(x, y, cs);
      case (Obj(x), Obj(y)) =>
        FoundInCovers(a, b, cs);
        FoundInCovers(b, a, cs);
        LookupDecides(x, y, cs);
        ObjectsEqual(x, y, cs);
      case _ =>
    }
  }

  lemma {:induction false} FoundInCovers(a: Json, b: Json, cs: bool)
    requires a.Obj? && b.Obj? && Regular(a, cs) && Regular(b, cs)
    ensures FoundIn(a, b, cs) <==> Covers(a.members, b.members, cs)
    decreases Size(a) + Size(b), 0
  {
    SizeChildren(a);
    SizeChildren(b);
    forall i | 0 <= i < |a.members|
      ensures var j := FindKey(b.members, a.members[i].key, cs);
        j < |b.members| ==>
        (CompareLookup(a.members[i].value, b.members[j].value, cs) <==>
         Abs(a.members[i].value, cs) == Abs(b.members[j].value, cs))
    {
      var j := FindKey(b.members, a.members[i].key, cs);
      if j < |b.members| {
        LookupCorrect(a.members[i].value, b.members[j].value, cs);
      }
    }
  }

  /** The fast comparison agrees with the quadratic one. */
  lemma ComparisonsAgree(a: Json, b: Json, cs: bool)
    requires Regular(a, cs) && Regular(b, cs)
    ensures CompareSorted(a, b, cs) <==> CompareLookup(a, b, cs)
  {
    SortedDecides(a, b, cs);
    LookupCorrect(a, b, cs);
  }

  // ---- the lookup comparison as it runs ----

  /** `get_object_item`: the walk to the first member of that name. */
  method FindMember(ms: seq<Member<Json>>, name: string, cs: bool) returns (i: nat)
    ensures i == FindKey(ms, name, cs)
  {
    i := 0;
    while i < |ms| && !SameKey(ms[i].key, name, cs)
      invariant i <= |ms|
      invariant FindKey(ms, name, cs) == i + FindKey(ms[i..], name, cs)
    {
      assert ms[i..][1..] == ms[i + 1..];
      i := i + 1;
    }
  }

  /** `cJSON_Compare` on two items that are not one and the same. */
  method CompareItems(a: Json, b: Json, cs: bool) returns (same: bool)
    ensures same == CompareLookup(a, b, cs)
    decreases Size(a) + Size(b), 2
  {
    match (a, b) {
      case (Number(x), Number(y)) => same := CompareDouble(x, y);
      case (Str(x), Str(y)) => same := x == y;
      case (Arr(x), Arr(y)) => same := CompareArrays(a, b, cs);
      case (Obj(x), Obj(y)) =>
        same := LookUpAll(a, b, cs);
        if same {
          same := LookUpAll(b, a, cs);
        }
      case (Null, Null) => same := true;
      case (False, False) => same := true;
      case (True, True) => same := true;
      case _ => same := false;
    }
  }

  method CompareArrays(a: Json, b: Json, cs: bool) returns (same: bool)
    requires a.Arr? && b.Arr?
    ensures same == CompareLookup(a, b, cs)
    decreases Size(a) + Size(b), 1
  {
    SizeChildren(a);
    SizeChildren(b);
    var x, y, i := a.elems, b.elems, 0;
    while i < |x| && i < |y|
      invariant i <= |x| && i <= |y|
      invariant forall k :: 0 <= k < i ==> CompareLookup(x[k], y[k], cs)
    {
      same := CompareItems(x[i], y[i], cs);
      if !same {
        return;
      }
      i := i + 1;
    }
    same := i == |x| && i == |y|;
  }

  method LookUpAll(a: Json, b: Json, cs: bool) returns (same: bool)
    requires a.Obj? && b.Obj?
    ensures same == FoundIn(a, b, cs)
    decreases Size(a) + Size(b), 1
  {
    SizeChildren(a);
    SizeChildren(b);
    var i := 0;
    while i < |a.members|
      invariant i <= |a.members|
      invariant forall k :: 0 <= k < i ==>
        var j := FindKey(b.members, a.members[k].key, cs);
        j < |b.members| && CompareLookup(a.members[k].value, b.members[j].value, cs)
    {
      var j := FindMember(b.members, a.members[i].key, cs);
      if j == |b.members| {
        return false;
      }
      same := CompareItems(a.members[i].value, b.members[j].value, cs);
      if !same {
        return;
      }
      i := i + 1;
    }
    same := true;
  }

  /** Beside an integer they do not agree: `compare_json` also compares what is left of the numbers as
      integers, towards zero. */
  lemma NumbersDisagree(cs: bool)
    ensures var below := Number(1.0 - 1.0 / 9007199254740992.0);
      CompareLookup(Number(1.0), below, cs) && !CompareSorted(Number(1.0), below, cs)
  {
    var d := 1.0 - 1.0 / 9007199254740992.0;
    assert d.Floor == 0 && ValueInt(d) == 0 && (1.0).Floor == 1 && ValueInt(1.0) == 1;
    assert AbsReal(1.0 - d) == 1.0 / 9007199254740992.0;
  }
}
