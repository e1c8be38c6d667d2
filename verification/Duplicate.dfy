/** The deep copy of an item. The source only has to be walkable along `child` and `next`; the copy is
    a tree of new items whose lists are complete, tail links included. */
module Duplicate {
  import opened Json
  import opened SiblingList
  import opened ItemTree

  ghost function Head(ts: seq<Shape>): Item? {
    if ts == [] then null else ts[0].item
  }

  /** Following `child` and then `next` meets the items of the shape and stops at null. */
  ghost predicate Walkable(t: Shape)
    reads Items(t)`child, Items(t)`next
    decreases t, 1
  {
    t.item.child == Head(t.kids) && WalkableKids(t.kids)
  }

  ghost predicate WalkableKids(ts: seq<Shape>)
    reads Nodes(ts)`child, Nodes(ts)`next
    decreases ts, 0
  {
    ts == [] || (assert ts[0].item in Items(ts[0]); ts[0].item.next == Head(ts[1..]) && Walkable(ts[0])
      && WalkableKids(ts[1..]))
  }

  /** The same data in the same places. */
  ghost predicate Same(t: Shape, u: Shape)
    reads Items(t)`kind, Items(t)`text, Items(t)`number, Items(t)`name
    reads Items(u)`kind, Items(u)`text, Items(u)`number, Items(u)`name
    decreases t, 1
  {
    && t.item.kind == u.item.kind && t.item.text == u.item.text && t.item.number == u.item.number
      && t.item.name == u.item.name
    && SameKids(t.kids, u.kids)
  }

  ghost predicate SameKids(ts: seq<Shape>, us: seq<Shape>)
    reads Nodes(ts)`kind, Nodes(ts)`text, Nodes(ts)`number, Nodes(ts)`name
    reads Nodes(us)`kind, Nodes(us)`text, Nodes(us)`number, Nodes(us)`name
    decreases ts, 0
  {
    |ts| == |us| && (ts == [] || (Same(ts[0], us[0]) && SameKids(ts[1..], us[1..])))
  }

  lemma {:induction false} SameSnoc(ts: seq<Shape>, us: seq<Shape>, t: Shape, u: Shape)
    requires SameKids(ts, us) && Same(t, u)
    ensures SameKids(ts + [t], us + [u])
  {
    hide Same;
    if ts == [] {
      assert ts + [t] == [t] && us + [u] == [u] && [t][1..] == [] && [u][1..] == [];
      assert SameKids([], []);
    } else {
      SameSnoc(ts[1..], us[1..], t, u);
      assert (ts + [t])[0] == ts[0] && (ts + [t])[1..] == ts[1..] + [t];
      assert (us + [u])[0] == us[0] && (us + [u])[1..] == us[1..] + [u];
    }
  }

  lemma {:induction false} WalkSuffix(ts: seq<Shape>, i: nat)
    requires i <= |ts| && WalkableKids(ts)
    ensures WalkableKids(ts[i..])
  {
    if i > 0 {
      WalkSuffix(ts[1..], i - 1);
      assert ts[i..] == ts[1..][i - 1..];
    } else {
      assert ts[0..] == ts;
    }
  }

  lemma WalkStep(ts: seq<Shape>, i: nat)
    requires i < |ts| && WalkableKids(ts[i..])
    ensures ts[i].item.next == Head(ts[i + 1..]) && Walkable(ts[i]) && WalkableKids(ts[i + 1..])
  {
    assert ts[i..][0] == ts[i] && ts[i..][1..] == ts[i + 1..];
  }

  // ---- the copy ----

  /** `cJSON_Duplicate`, recursively. */
  method Copy(item: Item, ghost t: Shape) returns (copy: Item, ghost u: Shape)
    requires t.item == item && Walkable(t)
    ensures u.item == copy && fresh(Items(u)) && Tree(u) && Same(t, u)
    ensures copy.next == null && copy.prev == null
    decreases t, 1
  {
    KidsAllocated(t.kids);
    AllAllocated(t);
    assert WalkableKids(t.kids);
    copy := CopyFields(item);
    var head, last;
    ghost var us;
    head, last, us := CopyChildren(item.child, t.kids);
    KidsAllocated(us);
    Complete(copy, head, last, us);
    u := Shape(copy, us);
  }

  method CopyFields(item: Item) returns (copy: Item)
    ensures fresh(copy) && copy.next == null && copy.prev == null
    ensures copy.kind == item.kind && copy.number == item.number && copy.text == item.text && copy.name == item.name
  {
    copy := new Item();
    copy.kind := item.kind;
    copy.number := item.number;
    copy.text := item.text;
    copy.name := item.name;
  }

  method CopyChildren(first: Item?, ghost ts: seq<Shape>) returns (head: Item?, last: Item?, ghost us: seq<Shape>)
    requires first == Head(ts) && WalkableKids(ts)
    ensures fresh(Nodes(us)) && Forest(us) && SameKids(ts, us) && Growing(head, last, Roots(us))
    decreases ts, 0
  {
    KidsAllocated(ts);
    NothingCopied();
    hide Forest;
    hide SameKids;
    hide WalkableKids;
    hide Walkable;
    hide Growing;
    hide Nodes;
    hide Roots;
    head, last, us := null, null, [];
    var child := first;
    ghost var i := 0;
    assert ts[0..] == ts;
    while child != null
      invariant i <= |ts| && child == Head(ts[i..]) && WalkableKids(ts)
      invariant fresh(Nodes(us)) && Forest(us) && SameKids(ts[..i], us) && Growing(head, last, Roots(us))
      decreases |ts| - i
    {
      WalkSuffix(ts, i);
      WalkStep(ts, i);
      assert ts[..i + 1] == ts[..i] + [ts[i]];
      last, head, us := CopyOne(child, ts[i], head, last, ts[..i], us);
      child := child.next;
      i := i + 1;
    }
    assert ts[..i] == ts;
  }

  lemma NothingCopied()
    ensures Nodes([]) == {} && Forest([]) && SameKids([], []) && Growing(null, null, Roots([]))
  {
  }

  /** One child. */
  method CopyOne(child: Item, ghost t: Shape, head: Item?, last: Item?, ghost ts: seq<Shape>, ghost us: seq<Shape>)
    returns (k: Item, head': Item, ghost vs: seq<Shape>)
    requires child == t.item && Walkable(t)
    requires Forest(us) && SameKids(ts, us) && Growing(head, last, Roots(us))
    modifies Nodes(us)`next
    ensures forall x :: x in Nodes(vs) ==> x in Nodes(us) || fresh(x)
    ensures Forest(vs) && SameKids(ts + [t], vs) && Growing(head', k, Roots(vs))
    decreases t, 2
  {
    KidsAllocated(ts);
    KidsAllocated(us);
    AllAllocated(t);
    ghost var u;
    k, u := Copy(child, t);
    SameSnoc(ts, us, t, u);
    KidsAllocated(ts + [t]);
    KidsAllocated(us + [u]);
    NodesSnoc(us, u);
    head', vs := Attach(head, last, k, us, u);
  }

  /** A copy holds exactly the values its source holds. */
  lemma {:induction false} CopyHolds(t: Shape, u: Shape, j: Json)
    requires Same(t, u)
    ensures Holds(t, j) <==> Holds(u, j)
    decreases t, 1
  {
    match j {
      case Arr(es) => CopyHoldsElems(t.kids, u.kids, es);
      case Obj(ms) => CopyHoldsMembers(t.kids, u.kids, ms);
      case _ =>
    }
  }

  lemma {:induction false} CopyHoldsElems(ts: seq<Shape>, us: seq<Shape>, es: seq<Json>)
    requires SameKids(ts, us)
    ensures HoldElems(ts, es) <==> HoldElems(us, es)
    decreases ts, 0
  {
    if ts == [] || es == [] {
    } else {
      CopyHolds(ts[0], us[0], es[0]);
      CopyHoldsElems(ts[1..], us[1..], es[1..]);
    }
  }

  lemma {:induction false} CopyHoldsMembers(ts: seq<Shape>, us: seq<Shape>, ms: seq<Member<Json>>)
    requires SameKids(ts, us)
    ensures HoldMembers(ts, ms) <==> HoldMembers(us, ms)
    decreases ts, 0
  {
    if ts == [] || ms == [] {
    } else {
      CopyHolds(ts[0], us[0], ms[0].value);
      CopyHoldsMembers(ts[1..], us[1..], ms[1..]);
    }
  }
}
