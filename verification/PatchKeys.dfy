/** Where keys land when they are written into a patch and read back from the last token of its path:
    a set of keys each of which some key of the set lands on consists of decodable keys only. */
module PatchKeys {
  import opened Text
  import opened Pointer
  import opened Patch

  /** The key that a patch for key `k` in fact works on. */
  function Landed(k: string): string {
    DecodeInPlace(EncodeToken(k))
  }

  lemma LandedBytes(k: string)
    ensures |Landed(k)| == |k| <= |EncodeToken(k)|
    ensures forall p :: 0 <= p < |k| ==> Landed(k)[p] == DecodedByte(k, p)
  {
    EncodeLonger(k);
    assert k[..0] == "";
    DecodeProgress(k, EncodeToken(k), 0);
  }

  /** Some key of the list lands on `w`. */
  ghost predicate Reached(ks: seq<string>, w: string) {
    exists u :: u in ks && SameKey(Landed(u), w, CI)
  }

  /** Every key of the list has a key of the list that lands on it. */
  ghost predicate Covered(ks: seq<string>) {
    forall w {:trigger Reached(ks, w)} :: w in ks ==> Reached(ks, w)
  }

  lemma FoldedByte(a: string, b: string, p: nat)
    requires SameKey(a, b, CI) && p < |a|
    ensures |b| == |a| && ToLower(a[p]) == ToLower(b[p])
  {
    assert |Lower(a)| == |a| && |Lower(b)| == |b|;
    assert Lower(a)[p] == Lower(b)[p];
  }

  lemma FoldedBytes(a: string, b: string)
    requires |a| == |b| && forall p :: 0 <= p < |a| ==> ToLower(a[p]) == ToLower(b[p])
    ensures SameKey(a, b, CI)
  {
    assert Lower(a) == Lower(b);
  }

  lemma {:induction false} EncodeFolds(a: string, b: string)
    requires SameKey(a, b, CI)
    ensures SameKey(EncodeToken(a), EncodeToken(b), CI)
  {
    assert |Lower(a)| == |a| && |Lower(b)| == |b|;
    if a == "" {
    } else {
      FoldStep(a, b, CI);
      EncodeFolds(a[1..], b[1..]);
      EncodeCharFolds(a[0], b[0], EncodeToken(a[1..]), EncodeToken(b[1..]));
    }
  }

  lemma EncodeCharFolds(c: char, d: char, a: string, b: string)
    requires ToLower(c) == ToLower(d) && SameKey(a, b, CI)
    ensures SameKey(EncodeChar(c) + a, EncodeChar(d) + b, CI)
  {
    var x, y := EncodeChar(c) + a, EncodeChar(d) + b;
    assert |Lower(a)| == |a| && |Lower(b)| == |b|;
    forall p | 0 <= p < |x| ensures ToLower(x[p]) == ToLower(y[p]) {
      if p >= |EncodeChar(c)| {
        FoldedByte(a, b, p - |EncodeChar(c)|);
      }
    }
    FoldedBytes(x, y);
  }

  /** The byte at place `q` of the escaped key. */
  lemma PlaceByte(k: string, q: nat)
    requires q < |k| <= |EncodeToken(k)|
    ensures var e := EncodeToken(k[..q]);
      q <= |e| && EncodeToken(k)[q] == if |e| > q then e[q] else EncodeChar(k[q])[0]
  {
    EncodeLonger(k[..q]);
    EncodePrefix(k, q);
    if |EncodeToken(k[..q])| == q {
      PrefixByte(k, q);
    }
  }

  /** A byte on which a key with the same beginning lands stays in place. */
  lemma FixedByte(u: string, w: string, q: nat)
    requires q < |w| == |u| && |u| <= |EncodeToken(u)| && |w| <= |EncodeToken(w)|
    requires SameKey(u[..q], w[..q], CI) && ToLower(DecodedByte(u, q)) == ToLower(w[q])
    ensures ToLower(DecodedByte(w, q)) == ToLower(w[q])
  {
    PlaceByte(u, q);
    PlaceByte(w, q);
    EncodeFolds(u[..q], w[..q]);
    var e, f := EncodeToken(u[..q]), EncodeToken(w[..q]);
    assert |Lower(e)| == |e| && |Lower(f)| == |f|;
    if q > 0 {
      FoldedByte(u[..q], w[..q], q - 1);
    }
    if |e| > q {
      FoldedByte(e, f, q);
    }
  }

  /** The two keys agree before place `q` but for case. */
  ghost predicate AgreeTo(a: string, b: string, q: nat) {
    |a| == |b| && q <= |a| && forall p :: 0 <= p < q ==> ToLower(a[p]) == ToLower(b[p])
  }

  lemma AgreeParts(a: string, b: string, q: nat)
    requires AgreeTo(a, b, q)
    ensures SameKey(a[..q], b[..q], CI)
  {
    FoldedBytes(a[..q], b[..q]);
  }

  lemma AgreeThroughout(a: string, b: string)
    ensures SameKey(a, b, CI) <==> AgreeTo(a, b, |a|)
  {
    if SameKey(a, b, CI) {
      assert |Lower(a)| == |a| && |Lower(b)| == |b|;
      forall p | 0 <= p < |a| ensures ToLower(a[p]) == ToLower(b[p]) {
        FoldedByte(a, b, p);
      }
    } else if AgreeTo(a, b, |a|) {
      FoldedBytes(a, b);
    }
  }

  lemma {:induction false} FixedUpTo(ks: seq<string>, w: string, q: nat)
    requires Covered(ks) && w in ks && q <= |w|
    ensures AgreeTo(Landed(w), w, q)
    decreases q
  {
    if q == 0 {
      LandedBytes(w);
    } else {
      var u := Lander(ks, w);
      FixedUpTo(ks, w, q - 1);
      AgreeThroughout(Landed(u), w);
      assert |Landed(u)| == |u| by {
        LandedBytes(u);
      }
      FixedUpTo(ks, u, q - 1);
      hide Covered;
      FixedNext(u, w, q - 1);
    }
  }

  lemma Lander(ks: seq<string>, w: string) returns (u: string)
    requires Covered(ks) && w in ks
    ensures u in ks && SameKey(Landed(u), w, CI)
  {
    assert Reached(ks, w);
    u :| u in ks && SameKey(Landed(u), w, CI);
  }

  lemma FixedNext(u: string, w: string, q: nat)
    requires q < |w| && AgreeTo(Landed(u), w, |w|) && AgreeTo(Landed(u), u, q) && AgreeTo(Landed(w), w, q)
    ensures AgreeTo(Landed(w), w, q + 1)
  {
    LandedBytes(u);
    LandedBytes(w);
    hide Landed;
    hide ToLower;
    hide EncodeToken;
    AgreeParts(u, w, q);
    hide SameKey;
    FixedByte(u, w, q);
  }

  /** Byte by byte from the left, nothing in such a list can move. */
  lemma CoveredDecodable(ks: seq<string>)
    requires Covered(ks)
    ensures forall w :: w in ks ==> Decodable(w)
  {
    forall w | w in ks ensures Decodable(w) {
      FixedUpTo(ks, w, |w|);
      hide Covered;
      hide Decodable;
      AgreeThroughout(Landed(w), w);
      DecodedSameKey(w, CI);
    }
  }

  /** If a key of the list is not decodable, there is one that no key of the list lands on. */
  lemma MissedKey(ks: seq<string>, bad: string) returns (z: string)
    requires bad in ks && !Decodable(bad)
    ensures z in ks && forall u :: u in ks ==> !SameKey(Landed(u), z, CI)
  {
    if Covered(ks) {
      CoveredDecodable(ks);
      assert false;
    }
    z :| z in ks && !Reached(ks, z);
  }
}
