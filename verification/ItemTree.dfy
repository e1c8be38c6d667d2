/** Trees of items on the heap: their shape, complete child lists throughout, and the value they hold. */
module ItemTree {
  import opened Json
  import opened SiblingList

  /** A tree of items, spelled out. */
  datatype Shape = Shape(item: Item, kids: seq<Shape>)

  ghost function Items(t: Shape): set<Item>
    decreases t, 1
  {
    {t.item} + Nodes(t.kids)
  }

  ghost function Nodes(ts: seq<Shape>): set<Item>
    decreases ts, 0
  {
    if ts == [] then {} else Items(ts[0]) + Nodes(ts[1..])
  }

  /** The items properly below the tops. */
  ghost function Below(ts: seq<Shape>): (r: set<Item>)
    ensures r <= Nodes(ts)
  {
    if ts == [] then {} else Nodes(ts[0].kids) + Below(ts[1..])
  }

  ghost function Roots(ts: seq<Shape>): (xs: seq<Item>)
    ensures |xs| == |ts| && forall i :: 0 <= i < |xs| ==> xs[i] in Nodes(ts)
  {
    if ts == [] then [] else [ts[0].item] + Roots(ts[1..])
  }

  /** A tree whose items are all different and whose child lists are linked; they are whole, if `whole`
      is set, or the heads may point back anywhere. */
  ghost predicate Tree(t: Shape, whole: bool := true)
    reads t.item`child, Nodes(t.kids)`next, Nodes(t.kids)`prev, Nodes(t.kids)`child
    decreases t, 1
  {
    ListOf(t.item, Roots(t.kids), whole) && t.item !in Nodes(t.kids) && Forest(t.kids, whole)
  }

  ghost predicate Forest(ts: seq<Shape>, whole: bool := true)
    reads Nodes(ts)`child, Below(ts)`next, Below(ts)`prev
    decreases ts, 0
  {
    ts == [] || (Tree(ts[0], whole) && Items(ts[0]) !! Nodes(ts[1..]) && Forest(ts[1..], whole))
  }

  /** A whole tree is linked. */
  lemma {:induction false} WholeLinked(t: Shape)
    requires Tree(t)
    ensures Tree(t, false)
    decreases t, 1
  {
    ForestLinked(t.kids);
  }

  lemma {:induction false} ForestLinked(ts: seq<Shape>)
    requires Forest(ts)
    ensures Forest(ts, false)
    decreases ts, 0
  {
    if ts == [] {
    } else {
      WholeLinked(ts[0]);
      ForestLinked(ts[1..]);
    }
  }

  /** The tops of a forest are not below one another. */
  lemma {:induction false} RootsApart(ts: seq<Shape>, whole: bool := true)
    requires Forest(ts, whole)
    ensures forall i :: 0 <= i < |ts| ==> Roots(ts)[i] !in Below(ts)
  {
    if ts == [] {
    } else {
      RootsApart(ts[1..], whole);
    }
  }

  lemma {:induction false} AllAllocated(t: Shape)
    ensures forall x :: x in Items(t) ==> allocated(x)
    decreases t, 1
  {
    KidsAllocated(t.kids);
  }

  lemma {:induction false} KidsAllocated(ts: seq<Shape>)
    ensures forall x :: x in Nodes(ts) ==> allocated(x)
    decreases ts, 0
  {
    if ts == [] {
    } else {
      AllAllocated(ts[0]);
      KidsAllocated(ts[1..]);
    }
  }

  // ---- one more tree behind others ----

  lemma {:induction false} NodesSnoc(ts: seq<Shape>, u: Shape)
    ensures Nodes(ts + [u]) == Nodes(ts) + Items(u)
    ensures Below(ts + [u]) == Below(ts) + Nodes(u.kids)
    ensures Roots(ts + [u]) == Roots(ts) + [u.item]
  {
    if ts == [] {
      assert ts + [u] == [u] && [u][1..] == [];
      assert Nodes([]) == {} && Below([]) == {} && Roots([]) == [];
    } else {
      NodesSnoc(ts[1..], u);
      assert (ts + [u])[0] == ts[0] && (ts + [u])[1..] == ts[1..] + [u];
    }
  }

  lemma {:induction false} ForestSnoc(ts: seq<Shape>, u: Shape)
    requires Forest(ts) && Tree(u) && Nodes(ts) !! Items(u)
    ensures Forest(ts + [u])
  {
    hide Tree;
    hide Items;
    if ts == [] {
      assert ts + [u] == [u] && [u][1..] == [];
      assert Nodes([]) == {} && Forest([]);
    } else {
      ForestSnoc(ts[1..], u);
      NodesSnoc(ts[1..], u);
      assert (ts + [u])[0] == ts[0] && (ts + [u])[1..] == ts[1..] + [u];
    }
  }

  /** One more tree behind the others. */
  method Attach(head: Item?, last: Item?, k: Item, ghost us: seq<Shape>, ghost u: Shape) returns (head': Item,
      ghost vs: seq<Shape>)
    requires Forest(us) && Growing(head, last, Roots(us))
    requires u.item == k && Tree(u) && Items(u) !! Nodes(us) && k.next == null
    modifies k`prev, Nodes(us)`next
    ensures vs == us + [u] && Forest(vs) && Growing(head', k, Roots(vs))
  {
    KidsAllocated(us);
    AllAllocated(u);
    RootsApart(us);
    NodesSnoc(us, u);
    assert k in Items(u) && Nodes(u.kids) <= Items(u) && k !in Nodes(us) && k !in Nodes(u.kids);
    assert forall i :: 0 <= i < |us| ==> Roots(us)[i] in Nodes(us) && Roots(us)[i] !in Items(u);
    head' := LinkNew(head, last, k, us);
    vs := us + [u];
    ForestSnoc(us, u);
  }

  /** The finished list becomes the children of an item. */
  method Complete(item: Item, head: Item?, last: Item?, ghost us: seq<Shape>)
    requires Forest(us) && Growing(head, last, Roots(us)) && item !in Nodes(us)
    modifies item`child, Nodes(us)`prev
    ensures Tree(Shape(item, us))
  {
    KidsAllocated(us);
    RootsApart(us);
    Finish(item, head, last, Roots(us));
  }

  lemma Childless(item: Item)
    requires item.child == null
    ensures Tree(Shape(item, []))
  {
  }

  lemma NothingGrown()
    ensures Nodes([]) == {} && Forest([]) && Growing(null, null, Roots([])) && HoldElems([], []) && HoldMembers([], [])
  {
  }

  /** A new item behind the others, before anything is known of its children. */
  method LinkNew(head: Item?, last: Item?, item: Item, ghost us: seq<Shape>) returns (head': Item)
    requires Forest(us) && Growing(head, last, Roots(us)) && item !in Nodes(us) && item.next == null
    modifies item`prev, Nodes(us)`next
    ensures Forest(us) && Growing(head', item, Roots(us) + [item])
  {
    KidsAllocated(us);
    RootsApart(us);
    head' := Grow(head, last, item, Roots(us));
  }

  method NewItem(head: Item?, last: Item?, ghost us: seq<Shape>) returns (head': Item, item: Item)
    requires Forest(us) && Growing(head, last, Roots(us))
    modifies Nodes(us)`next
    ensures fresh(item) && item !in Nodes(us) && item.child == null
    ensures Forest(us) && Growing(head', item, Roots(us) + [item])
  {
    KidsAllocated(us);
    item := new Item();
    assert item !in Nodes(us) && Below(us) <= Nodes(us);
    head' := LinkNew(head, last, item, us);
  }

  // ---- the value a tree of items holds ----

  /** The type bits of the items. */
  const FALSE: int := 1
  const TRUE: int := 2
  const NULL: int := 4
  const NUMBER: int := 8
  const STRING: int := 16
  const ARRAY: int := 32
  const OBJECT: int := 64

  ghost predicate Holds(t: Shape, j: Json)
    reads Items(t)`kind, Items(t)`text, Items(t)`number, Items(t)`name
    decreases t, 1
  {
    match j
    case Invalid => t.item.kind == 0
    case Null => t.item.kind == NULL
    case False => t.item.kind == FALSE
    case True => t.item.kind == TRUE
    case Number(d) => t.item.kind == NUMBER && t.item.number == d
    case Str(s) => t.item.kind == STRING && t.item.text == Some(s)
    case Arr(es) => t.item.kind == ARRAY && HoldElems(t.kids, es)
    case Obj(ms) => t.item.kind == OBJECT && HoldMembers(t.kids, ms)
  }

  ghost predicate HoldElems(ts: seq<Shape>, es: seq<Json>)
    reads Nodes(ts)`kind, Nodes(ts)`text, Nodes(ts)`number, Nodes(ts)`name
    decreases ts, 0
  {
    |ts| == |es| && (ts == [] || (Holds(ts[0], es[0]) && HoldElems(ts[1..], es[1..])))
  }

  ghost predicate HoldMembers(ts: seq<Shape>, ms: seq<Member<Json>>)
    reads Nodes(ts)`kind, Nodes(ts)`text, Nodes(ts)`number, Nodes(ts)`name
    decreases ts, 0
  {
    |ts| == |ms| && (ts == [] || (
      assert ts[0].item in Items(ts[0]);
      ts[0].item.name == Some(ms[0].key) && Holds(ts[0], ms[0].value) && HoldMembers(ts[1..], ms[1..])))
  }

  lemma {:induction false} HoldElemsSnoc(ts: seq<Shape>, es: seq<Json>, t: Shape, v: Json)
    requires HoldElems(ts, es) && Holds(t, v)
    ensures HoldElems(ts + [t], es + [v])
  {
    hide Holds;
    if ts == [] {
      assert ts + [t] == [t] && es + [v] == [v] && [t][1..] == [] && [v][1..] == [];
      assert HoldElems([], []);
    } else {
      HoldElemsSnoc(ts[1..], es[1..], t, v);
      assert (ts + [t])[0] == ts[0] && (ts + [t])[1..] == ts[1..] + [t];
      assert (es + [v])[0] == es[0] && (es + [v])[1..] == es[1..] + [v];
    }
  }

  lemma {:induction false} HoldMembersSnoc(ts: seq<Shape>, ms: seq<Member<Json>>, t: Shape, m: Member<Json>)
    requires HoldMembers(ts, ms) && t.item.name == Some(m.key) && Holds(t, m.value)
    ensures HoldMembers(ts + [t], ms + [m])
  {
    hide Holds;
    if ts == [] {
      assert ts + [t] == [t] && ms + [m] == [m] && [t][1..] == [] && [m][1..] == [];
      assert HoldMembers([], []);
    } else {
      HoldMembersSnoc(ts[1..], ms[1..], t, m);
      assert (ts + [t])[0] == ts[0] && (ts + [t])[1..] == ts[1..] + [t];
      assert (ms + [m])[0] == ms[0] && (ms + [m])[1..] == ms[1..] + [m];
    }
  }

  /** One more element behind the others. */
  lemma ElemBehind(ts: seq<Shape>, es: seq<Json>, t: Shape, v: Json)
    requires Forest(ts) && HoldElems(ts, es) && Tree(t) && Holds(t, v)
    requires t.item !in Nodes(ts) && Nodes(t.kids) !! Nodes(ts)
    ensures Forest(ts + [t]) && HoldElems(ts + [t], es + [v]) && Roots(ts + [t]) == Roots(ts) + [t.item]
    ensures Nodes(ts + [t]) == Nodes(ts) + {t.item} + Nodes(t.kids)
  {
    HoldElemsSnoc(ts, es, t, v);
    NodesSnoc(ts, t);
    ForestSnoc(ts, t);
    hide Forest;
    hide Tree;
    hide Holds;
    hide HoldElems;
  }

  /** One more member behind the others. */
  lemma MemberBehind(ts: seq<Shape>, ms: seq<Member<Json>>, t: Shape, m: Member<Json>)
    requires Forest(ts) && HoldMembers(ts, ms) && Tree(t) && t.item.name == Some(m.key) && Holds(t, m.value)
    requires t.item !in Nodes(ts) && Nodes(t.kids) !! Nodes(ts)
    ensures Forest(ts + [t]) && HoldMembers(ts + [t], ms + [m]) && Roots(ts + [t]) == Roots(ts) + [t.item]
    ensures Nodes(ts + [t]) == Nodes(ts) + {t.item} + Nodes(t.kids)
  {
    HoldMembersSnoc(ts, ms, t, m);
    NodesSnoc(ts, t);
    ForestSnoc(ts, t);
    hide Forest;
    hide Tree;
    hide Holds;
    hide HoldMembers;
  }

  /** The end of `parse_array`: the list becomes the children of the item. */
  method CompleteArray(item: Item, head: Item?, last: Item?, ghost us: seq<Shape>, ghost es: seq<Json>)
    requires Forest(us) && HoldElems(us, es) && Growing(head, last, Roots(us)) && item !in Nodes(us)
    modifies item`kind, item`child, Nodes(us)`prev
    ensures Tree(Shape(item, us)) && Holds(Shape(item, us), Arr(es))
  {
    KidsAllocated(us);
    Complete(item, head, last, us);
    item.kind := ARRAY;
  }

  /** The end of `parse_object`. */
  method CompleteObject(item: Item, head: Item?, last: Item?, ghost us: seq<Shape>, ghost ms: seq<Member<Json>>)
    requires Forest(us) && HoldMembers(us, ms) && Growing(head, last, Roots(us)) && item !in Nodes(us)
    modifies item`kind, item`child, Nodes(us)`prev
    ensures Tree(Shape(item, us)) && Holds(Shape(item, us), Obj(ms))
  {
    KidsAllocated(us);
    Complete(item, head, last, us);
    item.kind := OBJECT;
  }

  /** A tree holds one value only. */
  lemma {:induction false} HoldsOne(t: Shape, j: Json, k: Json)
    requires Holds(t, j) && Holds(t, k)
    ensures j == k
    decreases t, 1
  {
    match (j, k) {
      case (Arr(x), Arr(y)) => HoldOneElems(t.kids, x, y);
      case (Obj(x), Obj(y)) => HoldOneMembers(t.kids, x, y);
      case _ =>
    }
  }

  lemma {:induction false} HoldOneElems(ts: seq<Shape>, x: seq<Json>, y: seq<Json>)
    requires HoldElems(ts, x) && HoldElems(ts, y)
    ensures x == y
    decreases ts, 0
  {
    if ts == [] {
    } else {
      HoldsOne(ts[0], x[0], y[0]);
      HoldOneElems(ts[1..], x[1..], y[1..]);
      assert x == [x[0]] + x[1..] && y == [y[0]] + y[1..];
    }
  }

  lemma {:induction false} HoldOneMembers(ts: seq<Shape>, x: seq<Member<Json>>, y: seq<Member<Json>>)
    requires HoldMembers(ts, x) && HoldMembers(ts, y)
    ensures x == y
    decreases ts, 0
  {
    if ts == [] {
    } else {
      HoldsOne(ts[0], x[0].value, y[0].value);
      HoldOneMembers(ts[1..], x[1..], y[1..]);
      assert x == [x[0]] + x[1..] && y == [y[0]] + y[1..];
    }
  }
}
