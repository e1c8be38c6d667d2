/** The sort as a permutation of positions: lists with the same keys are reordered alike, whatever
    their values are. */
module Ordering {
  import opened Text
  import opened Json
  import opened Sorting

  function Keys<T>(ms: seq<Member<T>>): (ks: seq<string>)
    ensures |ks| == |ms| && forall i :: 0 <= i < |ks| ==> ks[i] == ms[i].key
  {
    seq(|ms|, i requires 0 <= i < |ms| => ms[i].key)
  }

  /** Each key with its position. */
  function Numbered(ks: seq<string>): (ms: seq<Member<nat>>)
    ensures |ms| == |ks| && forall i :: 0 <= i < |ms| ==> ms[i] == Member(ks[i], i)
  {
    seq(|ks|, i requires 0 <= i < |ks| => Member(ks[i], i))
  }

  /** The old positions in their new order. */
  function Order(ks: seq<string>, cs: bool): (order: seq<nat>)
    ensures |order| == |ks|
  {
    var r := SortList(Numbered(ks), cs);
    seq(|r|, i requires 0 <= i < |r| => r[i].value)
  }

  /** The positions of a list of that length, each once. */
  ghost predicate Permutes(order: seq<nat>, n: nat) {
    && |order| == n && (forall i :: 0 <= i < n ==> order[i] < n)
    && (forall i, j :: 0 <= i < j < n ==> order[i] != order[j])
    && (forall i :: 0 <= i < n ==> i in order)
  }

  function Pick<T>(xs: seq<T>, order: seq<nat>): (r: seq<T>)
    requires forall i :: 0 <= i < |order| ==> order[i] < |xs|
    ensures |r| == |order| && forall i :: 0 <= i < |r| ==> r[i] == xs[order[i]]
  {
    seq(|order|, i requires 0 <= i < |order| => xs[order[i]])
  }

  // ---- positions are carried along ----

  /** `v` tells where in `ms` the members of `u` come from. */
  ghost predicate Tracks<T>(u: seq<Member<T>>, v: seq<Member<nat>>, ms: seq<Member<T>>) {
    |u| == |v| && forall k :: 0 <= k < |u| ==> v[k].value < |ms| && u[k] == ms[v[k].value] && u[k].key == v[k].key
  }

  lemma TracksPart<T>(u: seq<Member<T>>, v: seq<Member<nat>>, ms: seq<Member<T>>, i: nat, j: nat)
    requires Tracks(u, v, ms) && i <= j <= |u|
    ensures Tracks(u[i..j], v[i..j], ms)
  {
  }

  lemma TracksCons<T>(x: Member<T>, y: Member<nat>, u: seq<Member<T>>, v: seq<Member<nat>>, ms: seq<Member<T>>)
    requires Tracks(u, v, ms) && y.value < |ms| && x == ms[y.value] && x.key == y.key
    ensures Tracks([x] + u, [y] + v, ms)
  {
  }

  lemma {:induction false} MergeTracks<T>(a: seq<Member<T>>, b: seq<Member<T>>, c: seq<Member<nat>>,
    d: seq<Member<nat>>, ms: seq<Member<T>>, cs: bool)
    requires Tracks(a, c, ms) && Tracks(b, d, ms)
    ensures Tracks(MergeLists(a, b, cs), MergeLists(c, d, cs), ms)
    decreases |a| + |b|
  {
    hide KeyLess;
    if a == [] || b == [] {
    } else {
      assert a[1..] == a[1..|a|] && b[1..] == b[1..|b|] && c[1..] == c[1..|c|] && d[1..] == d[1..|d|];
      TracksPart(a, c, ms, 1, |a|);
      TracksPart(b, d, ms, 1, |b|);
      if KeyLess(a[0].key, b[0].key, cs) {
        MergeTracks(a[1..], b, c[1..], d, ms, cs);
        TracksCons(a[0], c[0], MergeLists(a[1..], b, cs), MergeLists(c[1..], d, cs), ms);
      } else {
        MergeTracks(a, b[1..], c, d[1..], ms, cs);
        TracksCons(b[0], d[0], MergeLists(a, b[1..], cs), MergeLists(c, d[1..], cs), ms);
      }
      hide Tracks;
    }
  }

  lemma {:induction false} AscendingTracks<T>(u: seq<Member<T>>, v: seq<Member<nat>>, ms: seq<Member<T>>, cs: bool)
    requires Tracks(u, v, ms)
    ensures Ascending(u, cs) <==> Ascending(v, cs)
  {
    hide KeyLess;
    if |u| <= 1 {
    } else {
      assert u[1..] == u[1..|u|] && v[1..] == v[1..|v|];
      TracksPart(u, v, ms, 1, |u|);
      AscendingTracks(u[1..], v[1..], ms, cs);
    }
  }

  lemma {:induction false} SortTracks<T>(u: seq<Member<T>>, v: seq<Member<nat>>, ms: seq<Member<T>>, cs: bool)
    requires Tracks(u, v, ms)
    ensures Tracks(SortList(u, cs), SortList(v, cs), ms)
    decreases |u|
  {
    AscendingTracks(u, v, ms, cs);
    if |u| <= 1 || Ascending(u, cs) {
    } else {
      var h := Middle(|u|);
      assert u[..h] == u[0..h] && v[..h] == v[0..h] && u[h..] == u[h..|u|] && v[h..] == v[h..|v|];
      TracksPart(u, v, ms, 0, h);
      TracksPart(u, v, ms, h, |u|);
      SortTracks(u[..h], v[..h], ms, cs);
      SortTracks(u[h..], v[h..], ms, cs);
      MergeTracks(SortList(u[..h], cs), SortList(u[h..], cs), SortList(v[..h], cs), SortList(v[h..], cs), ms, cs);
      hide Tracks;
      hide MergeLists;
      hide Ascending;
    }
  }

  // ---- the order is a permutation ----

  lemma CountOne<T>(xs: seq<T>, i: nat)
    requires i < |xs| && forall j :: 0 <= j < |xs| && j != i ==> xs[j] != xs[i]
    ensures multiset(xs)[xs[i]] == 1
  {
    var a, b := xs[..i], xs[i + 1..];
    assert xs == a + [xs[i]] + b;
    assert xs[i] !in a && xs[i] !in b;
    assert multiset(a)[xs[i]] == 0 && multiset(b)[xs[i]] == 0;
  }

  lemma CountTwo<T>(xs: seq<T>, i: nat, j: nat)
    requires i < j < |xs| && xs[i] == xs[j]
    ensures multiset(xs)[xs[i]] >= 2
  {
    var a, b := xs[..j], xs[j..];
    assert xs == a + b;
    assert a[i] == xs[i] && b[0] == xs[i];
    assert xs[i] in multiset(a) && xs[i] in multiset(b);
  }

  lemma OrderPermutes(ks: seq<string>, cs: bool)
    ensures Permutes(Order(ks, cs), |ks|)
  {
    var n, r, order := Numbered(ks), SortList(Numbered(ks), cs), Order(ks, cs);
    SortPermutes(n, cs);
    hide SortList;
    forall i | 0 <= i < |ks| ensures order[i] < |ks| && r[i] == n[order[i]] {
      assert r[i] in multiset(r);
      assert r[i] in multiset(n);
      var k :| 0 <= k < |n| && n[k] == r[i];
    }
    forall i | 0 <= i < |ks| ensures i in order {
      assert n[i] in multiset(n);
      assert n[i] in multiset(r);
      var k :| 0 <= k < |r| && r[k] == n[i];
      assert order[k] == i;
    }
    forall i, j | 0 <= i < j < |ks| ensures order[i] != order[j] {
      if order[i] == order[j] {
        CountTwo(r, i, j);
        CountOne(n, order[i]);
      }
    }
  }

  /** Sorting picks the members in that order. */
  lemma SortPicks<T>(ms: seq<Member<T>>, cs: bool)
    ensures var order := Order(Keys(ms), cs);
      Permutes(order, |ms|) && SortList(ms, cs) == Pick(ms, order)
  {
    var n := Numbered(Keys(ms));
    SortTracks(ms, n, ms, cs);
    OrderPermutes(Keys(ms), cs);
    hide SortList;
  }
}
