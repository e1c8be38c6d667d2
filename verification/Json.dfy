/** JSON trees as the library stores them, and the documents they denote. */
module Json {
  import opened Text

  datatype Option<+T> = None | Some(value: T)

  /** A child item with its name. */
  datatype Member<+T> = Member(key: string, value: T)

  /** An item. The children of an array or object are in list order. A number keeps only
      `valuedouble`, as `valueint` always follows from it (see `ValueInt`). `Invalid` is what a
      root becomes once it has been removed. */
  datatype Json =
    | Invalid
    | Null
    | False
    | True
    | Number(d: real)
    | Str(s: string)
    | Arr(elems: seq<Json>)
    | Obj(members: seq<Member<Json>>)

  const INT_MAX: int := 0x7FFF_FFFF
  const INT_MIN: int := -0x8000_0000

  /** The C conversion of a double to `int` is towards zero; the library saturates first. */
  function ValueInt(d: real): int {
    if d >= INT_MAX as real then INT_MAX
    else if d <= INT_MIN as real then INT_MIN
    else if d >= 0.0 then d.Floor
    else -((-d).Floor)
  }

  predicate IsInt32(d: real) {
    d == d.Floor as real && INT_MIN <= d.Floor <= INT_MAX
  }

  /** Position of the first member with the given key, or the number of members. */
  function FindKey<T>(ms: seq<Member<T>>, k: string, cs: bool): (i: nat)
    ensures i <= |ms|
    ensures i < |ms| ==> SameKey(ms[i].key, k, cs)
  {
    if ms == [] then 0
    else if SameKey(ms[0].key, k, cs) then 0
    else 1 + FindKey(ms[1..], k, cs)
  }

  /** No two members have the same key. */
  ghost predicate DistinctKeys<T>(ms: seq<Member<T>>, cs: bool) {
    ms == [] || (FindKey(ms[1..], ms[0].key, cs) == |ms| - 1 && DistinctKeys(ms[1..], cs))
  }

  /** Documents on which the comparisons are meaningful: no invalid item, 32-bit integer numbers,
      sibling keys distinct under the case rule, array positions that fit `size_t`. */
  ghost predicate Regular(j: Json, cs: bool) {
    match j
    case Invalid => false
    case Number(d) => IsInt32(d)
    case Arr(es) => |es| <= SIZE_MAX && forall i :: 0 <= i < |es| ==> Regular(es[i], cs)
    case Obj(ms) => DistinctKeys(ms, cs) && forall i :: 0 <= i < |ms| ==> Regular(ms[i].value, cs)
    case _ => true
  }

  const SIZE_MAX: int := 0xFFFF_FFFF_FFFF_FFFF

  /** Every string and key of a tree is a C string. */
  ghost predicate CStrings(j: Json) {
    match j
    case Str(s) => NulFree(s)
    case Arr(es) => forall i :: 0 <= i < |es| ==> CStrings(es[i])
    case Obj(ms) => forall i :: 0 <= i < |ms| ==> NulFree(ms[i].key) && CStrings(ms[i].value)
    case _ => true
  }

  /** Number of items in a tree, the termination measure of the pairwise walks. */
  ghost function Size(j: Json): (n: nat)
    ensures n > 0
  {
    match j
    case Arr(es) => 1 + SizeElems(es)
    case Obj(ms) => 1 + SizeMembers(ms)
    case _ => 1
  }

  ghost function SizeElems(es: seq<Json>): nat {
    if es == [] then 0 else Size(es[0]) + SizeElems(es[1..])
  }

  ghost function SizeMembers(ms: seq<Member<Json>>): nat {
    if ms == [] then 0 else Size(ms[0].value) + SizeMembers(ms[1..])
  }

  lemma {:induction false} SizeElem(es: seq<Json>, i: nat)
    requires i < |es|
    ensures Size(es[i]) <= SizeElems(es)
  {
    if i == 0 {
    } else {
      SizeElem(es[1..], i - 1);
    }
  }

  lemma {:induction false} SizeMember(ms: seq<Member<Json>>, i: nat)
    requires i < |ms|
    ensures Size(ms[i].value) <= SizeMembers(ms)
  {
    if i == 0 {
    } else {
      SizeMember(ms[1..], i - 1);
    }
  }

  lemma SizeChildren(j: Json)
    ensures j.Arr? ==> forall i :: 0 <= i < |j.elems| ==> Size(j.elems[i]) < Size(j)
    ensures j.Obj? ==> forall i :: 0 <= i < |j.members| ==> Size(j.members[i].value) < Size(j)
  {
    if j.Arr? {
      forall i | 0 <= i < |j.elems| ensures Size(j.elems[i]) < Size(j) {
        SizeElem(j.elems, i);
      }
    }
    if j.Obj? {
      forall i | 0 <= i < |j.members| ensures Size(j.members[i].value) < Size(j) {
        SizeMember(j.members, i);
      }
    }
  }

  // ---- what a tree denotes ----

  /** A document: members form a map, so order and key spelling (when case is ignored) are gone. */
  datatype Doc =
    | DInvalid
    | DNull
    | DBool(b: bool)
    | DNum(d: real)
    | DStr(s: string)
    | DArr(es: seq<Doc>)
    | DObj(m: map<string, Doc>)

  ghost function Abs(j: Json, cs: bool): Doc {
    match j
    case Invalid => DInvalid
    case Null => DNull
    case False => DBool(false)
    case True => DBool(true)
    case Number(d) => DNum(d)
    case Str(s) => DStr(s)
    case Arr(es) => DArr(seq(|es|, i requires 0 <= i < |es| => Abs(es[i], cs)))
    case Obj(ms) => DObj(AbsMembers(ms, cs))
  }

  /** The first of several members with one key counts, as in a lookup. */
  ghost function AbsMembers(ms: seq<Member<Json>>, cs: bool): map<string, Doc> {
    if ms == [] then map[] else AbsMembers(ms[1..], cs)[Fold(ms[0].key, cs) := Abs(ms[0].value, cs)]
  }

  // ---- lookups and edits seen through the map ----

  lemma {:induction false} AbsAt(ms: seq<Member<Json>>, k: string, cs: bool)
    ensures var i := FindKey(ms, k, cs);
      && (Fold(k, cs) in AbsMembers(ms, cs) <==> i < |ms|)
      && (i < |ms| ==> AbsMembers(ms, cs)[Fold(k, cs)] == Abs(ms[i].value, cs))
  {
    if ms == [] {
    } else {
      AbsAt(ms[1..], k, cs);
    }
  }

  /** Every key of the map comes from a member. */
  lemma {:induction false} AbsKey(ms: seq<Member<Json>>, f: string, cs: bool) returns (i: nat)
    requires f in AbsMembers(ms, cs)
    ensures i < |ms| && Fold(ms[i].key, cs) == f
  {
    if Fold(ms[0].key, cs) == f {
      i := 0;
    } else {
      i := AbsKey(ms[1..], f, cs);
      i := i + 1;
    }
  }

  /** Dropping the first member of a distinct list. */
  lemma HeadGone(x: seq<Member<Json>>, cs: bool)
    requires x != [] && DistinctKeys(x, cs)
    ensures var f := Fold(x[0].key, cs);
      && f in AbsMembers(x, cs) && f !in AbsMembers(x[1..], cs)
      && AbsMembers(x, cs)[f] == Abs(x[0].value, cs)
      && AbsMembers(x[1..], cs) == AbsMembers(x, cs) - {f}
  {
    hide Abs;
    hide Fold;
    AbsAt(x[1..], x[0].key, cs);
  }

  /** `FindKey` finds the first match and misses none. */
  lemma {:induction false} FindFirst<T>(ms: seq<Member<T>>, k: string, cs: bool, i: nat)
    requires i < |ms| && SameKey(ms[i].key, k, cs)
    ensures FindKey(ms, k, cs) <= i
  {
    if i == 0 || SameKey(ms[0].key, k, cs) {
    } else {
      FindFirst(ms[1..], k, cs, i - 1);
    }
  }

  /** With distinct keys a member is found at its own position. */
  lemma {:induction false} FindOwn<T>(ms: seq<Member<T>>, k: string, i: nat, cs: bool)
    requires DistinctKeys(ms, cs) && i < |ms| && SameKey(ms[i].key, k, cs)
    ensures FindKey(ms, k, cs) == i
  {
    if i == 0 {
    } else {
      if SameKey(ms[0].key, k, cs) {
        FindFirst(ms[1..], ms[0].key, cs, i - 1);
      }
      FindOwn(ms[1..], k, i - 1, cs);
    }
  }

  /** Distinctness, pair by pair. */
  lemma {:induction false} DistinctPair<T>(ms: seq<Member<T>>, i: nat, j: nat, cs: bool)
    requires DistinctKeys(ms, cs) && i < j < |ms|
    ensures !SameKey(ms[i].key, ms[j].key, cs)
  {
    if SameKey(ms[i].key, ms[j].key, cs) {
      FindOwn(ms, ms[j].key, i, cs);
      FindOwn(ms, ms[j].key, j, cs);
    }
  }

  lemma OverwriteEntry(a: map<string, Doc>, f: string, v: Doc)
    ensures (a - {f})[f := v] == a[f := v]
  {
  }

  ghost function Entry(m: map<string, Doc>, k: string): Option<Doc> {
    if k in m then Some(m[k]) else None
  }

  /** The list without its item at `i`. */
  function Without<T>(xs: seq<T>, i: nat): (r: seq<T>)
    requires i < |xs|
  {
    xs[..i] + xs[i + 1..]
  }

  lemma WithoutStep<T>(xs: seq<T>, i: nat)
    requires 0 < i < |xs|
    ensures Without(xs, i) == [xs[0]] + Without(xs[1..], i - 1)
  {
  }

  lemma {:induction false} FindWithoutOther<T>(ms: seq<Member<T>>, i: nat, k: string, cs: bool)
    requires i < |ms| && !SameKey(ms[i].key, k, cs)
    ensures var f := FindKey(ms, k, cs); FindKey(Without(ms, i), k, cs) == if f < i then f else f - 1
  {
    hide SameKey;
    if i == 0 {
      assert Without(ms, i) == ms[1..];
    } else {
      WithoutStep(ms, i);
      FindWithoutOther(ms[1..], i - 1, k, cs);
    }
  }

  lemma {:induction false} FindWithoutOwn<T>(ms: seq<Member<T>>, i: nat, k: string, cs: bool)
    requires DistinctKeys(ms, cs) && i < |ms| && SameKey(ms[i].key, k, cs)
    ensures FindKey(Without(ms, i), k, cs) == |ms| - 1
  {
    hide Fold;
    if i == 0 {
      assert Without(ms, i) == ms[1..];
      FindSame(ms[1..], ms[0].key, k, cs);
    } else {
      DistinctPair(ms, 0, i, cs);
      WithoutStep(ms, i);
      FindWithoutOwn(ms[1..], i - 1, k, cs);
    }
  }

  /** Lookups after one member is taken out of a distinct list. */
  lemma FindWithout<T>(ms: seq<Member<T>>, i: nat, k: string, cs: bool)
    requires DistinctKeys(ms, cs) && i < |ms|
    ensures var w, f := Without(ms, i), FindKey(ms, k, cs);
      FindKey(w, k, cs) == if f == i then |w| else if f < i then f else f - 1
  {
    if SameKey(ms[i].key, k, cs) {
      FindOwn(ms, k, i, cs);
      FindWithoutOwn(ms, i, k, cs);
    } else {
      FindWithoutOther(ms, i, k, cs);
    }
  }

  lemma {:induction false} FindSame<T>(ms: seq<Member<T>>, k: string, k': string, cs: bool)
    requires SameKey(k, k', cs)
    ensures FindKey(ms, k, cs) == FindKey(ms, k', cs)
  {
    if ms == [] {
    } else {
      FindSame(ms[1..], k, k', cs);
    }
  }

  lemma {:induction false} DistinctWithout<T>(ms: seq<Member<T>>, i: nat, cs: bool)
    requires DistinctKeys(ms, cs) && i < |ms|
    ensures DistinctKeys(Without(ms, i), cs)
  {
    if i == 0 {
      assert Without(ms, i) == ms[1..];
    } else {
      WithoutStep(ms, i);
      DistinctWithout(ms[1..], i - 1, cs);
      DistinctPair(ms, 0, i, cs);
      FindWithoutOther(ms[1..], i - 1, ms[0].key, cs);
    }
  }

  lemma {:induction false} AbsWithout(ms: seq<Member<Json>>, i: nat, cs: bool)
    requires DistinctKeys(ms, cs) && i < |ms|
    ensures AbsMembers(Without(ms, i), cs) == AbsMembers(ms, cs) - {Fold(ms[i].key, cs)}
  {
    hide Abs;
    hide Fold;
    if i == 0 {
      assert Without(ms, i) == ms[1..];
      AbsAt(ms[1..], ms[0].key, cs);
    } else {
      WithoutStep(ms, i);
      DistinctPair(ms, 0, i, cs);
      AbsWithout(ms[1..], i - 1, cs);
    }
  }

  lemma {:induction false} FindAppend<T>(ms: seq<Member<T>>, m: Member<T>, k: string, cs: bool)
    ensures var f := FindKey(ms, k, cs);
      FindKey(ms + [m], k, cs) == if f < |ms| || SameKey(m.key, k, cs) then f else |ms| + 1
  {
    if ms == [] {
      assert ms + [m] == [m];
    } else {
      assert (ms + [m])[1..] == ms[1..] + [m];
      FindAppend(ms[1..], m, k, cs);
    }
  }

  lemma {:induction false} DistinctAppend<T>(ms: seq<Member<T>>, m: Member<T>, cs: bool)
    requires DistinctKeys(ms, cs) && FindKey(ms, m.key, cs) == |ms|
    ensures DistinctKeys(ms + [m], cs)
  {
    if ms == [] {
      assert ms + [m] == [m];
    } else {
      assert (ms + [m])[1..] == ms[1..] + [m];
      DistinctAppend(ms[1..], m, cs);
      FindAppend(ms[1..], m, ms[0].key, cs);
    }
  }

  lemma {:induction false} AbsAppend(ms: seq<Member<Json>>, m: Member<Json>, cs: bool)
    requires FindKey(ms, m.key, cs) == |ms|
    ensures AbsMembers(ms + [m], cs) == AbsMembers(ms, cs)[Fold(m.key, cs) := Abs(m.value, cs)]
  {
    hide Abs;
    hide Fold;
    if ms == [] {
      assert ms + [m] == [m] && [m][1..] == [];
    } else {
      assert (ms + [m])[1..] == ms[1..] + [m];
      AbsAppend(ms[1..], m, cs);
    }
  }

  /** Replacing the value of one member. */
  function WithValue<T>(ms: seq<Member<T>>, i: nat, v: T): (r: seq<Member<T>>)
    requires i < |ms|
    ensures |r| == |ms|
  {
    ms[i := ms[i].(value := v)]
  }

  lemma WithValueStep<T>(ms: seq<Member<T>>, i: nat, v: T)
    requires 0 < i < |ms|
    ensures WithValue(ms, i, v) == [ms[0]] + WithValue(ms[1..], i - 1, v)
  {
  }

  lemma {:induction false} FindWithValue<T>(ms: seq<Member<T>>, i: nat, v: T, k: string, cs: bool)
    requires i < |ms|
    ensures FindKey(WithValue(ms, i, v), k, cs) == FindKey(ms, k, cs)
  {
    if i == 0 {
      assert WithValue(ms, i, v)[1..] == ms[1..];
    } else {
      WithValueStep(ms, i, v);
      FindWithValue(ms[1..], i - 1, v, k, cs);
    }
  }

  lemma {:induction false} DistinctWithValue<T>(ms: seq<Member<T>>, i: nat, v: T, cs: bool)
    requires DistinctKeys(ms, cs) && i < |ms|
    ensures DistinctKeys(WithValue(ms, i, v), cs)
  {
    if i == 0 {
      assert WithValue(ms, i, v)[1..] == ms[1..];
    } else {
      WithValueStep(ms, i, v);
      FindWithValue(ms[1..], i - 1, v, ms[0].key, cs);
      DistinctWithValue(ms[1..], i - 1, v, cs);
    }
  }

  lemma {:induction false} AbsWithValue(ms: seq<Member<Json>>, i: nat, v: Json, cs: bool)
    requires DistinctKeys(ms, cs) && i < |ms|
    ensures AbsMembers(WithValue(ms, i, v), cs) == AbsMembers(ms, cs)[Fold(ms[i].key, cs) := Abs(v, cs)]
  {
    hide Abs;
    hide Fold;
    if i == 0 {
      assert WithValue(ms, i, v)[1..] == ms[1..];
    } else {
      WithValueStep(ms, i, v);
      DistinctPair(ms, 0, i, cs);
      AbsWithValue(ms[1..], i - 1, v, cs);
    }
  }
}
