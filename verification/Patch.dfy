/** Applying a JSON Patch to a document. */
module Patch {
  import opened Text
  import opened Json
  import opened Pointer
  import opened Arrange

  // ---- unescaping the last token ----

  /** `decode_pointer_inplace`, from read position `r` and write position `d`. Only `~` is written
      where it belongs: an ordinary byte after an escape is not moved, and a slash is written one
      place too far. An invalid escape stops the work and leaves the rest as it is. */
  function DecodeFrom(buffer: string, d: nat, r: nat): string
    requires d <= r <= |buffer|
    decreases |buffer| - r
  {
    if r == |buffer| then buffer[..d]
    else if buffer[r] == '~' then
      if r + 1 < |buffer| && buffer[r + 1] == '0' then DecodeFrom(buffer[d := '~'], d + 1, r + 2)
      else if r + 1 < |buffer| && buffer[r + 1] == '1' then DecodeFrom(buffer[d + 1 := '/'], d + 1, r + 2)
      else buffer
    else DecodeFrom(buffer, d + 1, r + 1)
  }

  function DecodeInPlace(token: string): string {
    DecodeFrom(token, 0, 0)
  }

  /** The loop over the copied token; `text` is the C string in the array afterwards. */
  method DecodePointerInPlace(a: array<char>) returns (text: string)
    requires a.Length > 0 && a[a.Length - 1] == NUL && NulFree(a[..a.Length - 1])
    modifies a
    ensures text == DecodeInPlace(old(a[..a.Length - 1]))
    ensures |text| < a.Length && text == a[..|text|] && (|text| == a.Length - 1 || a[|text|] == NUL)
  {
    var n := a.Length - 1;
    ghost var before := a[..n];
    assert forall i :: 0 <= i < n ==> a[i] == before[i];
    var d, r := 0, 0;
    while a[r] != NUL
      invariant d <= r <= n && a[n] == NUL && forall i :: 0 <= i < n ==> a[i] != NUL
      invariant DecodeFrom(a[..n], d, r) == DecodeInPlace(before)
      decreases n - r
    {
      assert r < n && a[..n][r] == a[r];
      ghost var buffer := a[..n];
      if a[r] == '~' {
        assert r + 1 < n ==> buffer[r + 1] == a[r + 1];
        if a[r + 1] == '0' {
          a[d] := '~';
          assert a[..n] == buffer[d := '~'];
        } else if a[r + 1] == '1' {
          a[d + 1] := '/';
          assert a[..n] == buffer[d + 1 := '/'];
        } else {
          return a[..n];
        }
        r := r + 1;
      }
      d, r := d + 1, r + 1;
    }
    text := a[..d];
    assert a[..n][..d] == text;
    a[d] := NUL;
  }

  /** What the buffer holds in place of the key's byte at `q` once the loop has passed it. */
  function DecodedByte(k: string, q: nat): char
    requires q < |k| && q < |EncodeToken(k)|
  {
    if k[q] == '~' then '~' else if q > 0 && k[q - 1] == '/' then '/' else EncodeToken(k)[q]
  }

  lemma {:induction false} EncodeLonger(k: string)
    ensures |k| <= |EncodeToken(k)|
  {
    if k == "" {
    } else {
      EncodeLonger(k[1..]);
    }
  }

  /** The keys that survive: no slash, and each ordinary byte happens to stand at its place already. */
  predicate Decodable(k: string) {
    EncodeLonger(k);
    forall q :: 0 <= q < |k| ==> k[q] != '/' && (k[q] == '~' || EncodeToken(k)[q] == k[q])
  }

  /** State once the key's first `q` bytes are done: the buffer below `q` is settled, from the
      read position on it is untouched, and in between it differs at most by one misplaced slash. */
  ghost predicate Progress(k: string, buffer: string, q: nat)
    requires q <= |k|
  {
    var e, r := EncodeToken(k), |EncodeToken(k[..q])|;
    && |k| <= |e| == |buffer| && q <= r <= |e| && buffer[r..] == e[r..]
    && (forall p :: 0 <= p < q ==> buffer[p] == DecodedByte(k, p))
    && (forall p :: q < p < |k| ==> buffer[p] == e[p])
    && (q < |k| ==> buffer[q] == if q > 0 && k[q - 1] == '/' then '/' else e[q])
  }

  function AfterByte(buffer: string, q: nat, c: char): (r: string)
    requires q + 1 < |buffer| || (c != '/' && q < |buffer|)
    ensures |r| == |buffer|
  {
    if c == '~' then buffer[q := '~'] else if c == '/' then buffer[q + 1 := '/'] else buffer
  }

  lemma DecodeOne(k: string, buffer: string, q: nat)
    requires q < |k| && Progress(k, buffer, q)
    ensures var r, r' := |EncodeToken(k[..q])|, |EncodeToken(k[..q + 1])|;
      q + |EncodeChar(k[q])| <= r' <= |buffer|
      && DecodeFrom(buffer, q, r) == DecodeFrom(AfterByte(buffer, q, k[q]), q + 1, r')
  {
    hide EncodeToken;
    BufferAhead(k, buffer, q);
    hide Progress;
    DecodeByte(k[q], buffer, q, |EncodeToken(k[..q])|);
    hide DecodeFrom;
    hide AfterByte;
  }

  /** The escaped text of byte `q` stands at the read position. */
  lemma BufferAhead(k: string, buffer: string, q: nat)
    requires q < |k| && Progress(k, buffer, q)
    ensures var r, t := |EncodeToken(k[..q])|, EncodeChar(k[q]);
      && q <= r && r + |t| == |EncodeToken(k[..q + 1])| <= |buffer|
      && buffer[r] == t[0] && (|t| == 2 ==> buffer[r + 1] == t[1])
  {
    var e, r, t := EncodeToken(k), |EncodeToken(k[..q])|, EncodeChar(k[q]);
    DecodeStep(k, q);
    hide EncodeToken;
    SameTail(buffer, e, r);
    hide Progress;
    SliceAt(e, r, t);
  }

  lemma SliceAt(e: string, r: nat, t: string)
    requires r + |t| <= |e| && e[r..r + |t|] == t
    ensures forall i :: 0 <= i < |t| ==> e[r + i] == t[i]
  {
    forall i | 0 <= i < |t| ensures e[r + i] == t[i] {
      assert e[r..r + |t|][i] == e[r + i];
    }
  }

  lemma SameTail(a: string, b: string, r: nat)
    requires |a| == |b| && r <= |a| && a[r..] == b[r..]
    ensures forall i :: r <= i < |a| ==> a[i] == b[i]
  {
    forall i | r <= i < |a| ensures a[i] == b[i] {
      assert a[i] == a[r..][i - r] == b[r..][i - r];
    }
  }

  /** The loop on the escaped text of one byte. */
  lemma DecodeByte(c: char, buffer: string, d: nat, r: nat)
    requires d <= r && r + |EncodeChar(c)| <= |buffer|
    requires buffer[r] == EncodeChar(c)[0] && (|EncodeChar(c)| == 2 ==> buffer[r + 1] == EncodeChar(c)[1])
    ensures d + |EncodeChar(c)| <= |buffer|
    ensures DecodeFrom(buffer, d, r) == DecodeFrom(AfterByte(buffer, d, c), d + 1, r + |EncodeChar(c)|)
  {
  }

  lemma ProgressStep(k: string, buffer: string, q: nat)
    requires q < |k| && Progress(k, buffer, q)
    ensures q + |EncodeChar(k[q])| <= |buffer| && Progress(k, AfterByte(buffer, q, k[q]), q + 1)
  {
    hide EncodeToken;
    DecodeStep(k, q);
    EncodeLonger(k[..q + 1]);
    var e, r, r' := EncodeToken(k), |EncodeToken(k[..q])|, |EncodeToken(k[..q + 1])|;
    var next := AfterByte(buffer, q, k[q]);
    assert forall i :: r <= i < |e| ==> buffer[i] == buffer[r..][i - r] == e[r..][i - r] == e[i];
    assert next[r'..] == e[r'..];
  }

  lemma {:induction false} DecodeProgress(k: string, buffer: string, q: nat)
    requires q <= |k| && Progress(k, buffer, q)
    ensures var t := DecodeFrom(buffer, q, |EncodeToken(k[..q])|);
      |t| == |k| && forall p :: 0 <= p < |k| ==> t[p] == DecodedByte(k, p)
    decreases |k| - q
  {
    if q == |k| {
      assert k[..q] == k;
    } else {
      DecodeOne(k, buffer, q);
      ProgressStep(k, buffer, q);
      DecodeProgress(k, AfterByte(buffer, q, k[q]), q + 1);
    }
  }

  /** The escaped text of byte `q` lies right behind that of the bytes before it. */
  lemma DecodeStep(k: string, q: nat)
    requires q < |k|
    ensures var r, r', e := |EncodeToken(k[..q])|, |EncodeToken(k[..q + 1])|, EncodeToken(k);
      q <= r && r' == r + |EncodeChar(k[q])| <= |e| && e[r..r'] == EncodeChar(k[q])
  {
    EncodeLonger(k[..q]);
    EncodeSnoc(k, q);
    EncodePrefix(k, q + 1);
    var r, r' := |EncodeToken(k[..q])|, |EncodeToken(k[..q + 1])|;
    assert EncodeToken(k)[..r'][r..] == EncodeChar(k[q]);
    assert EncodeToken(k)[..r'][r..] == EncodeToken(k)[r..r'];
  }

  lemma {:induction false} EncodePrefix(k: string, q: nat)
    requires q <= |k|
    ensures EncodeToken(k[..q]) <= EncodeToken(k)
    decreases |k| - q
  {
    if q < |k| {
      EncodeSnoc(k, q);
      EncodePrefix(k, q + 1);
    } else {
      assert k[..q] == k;
    }
  }

  /** Unescaping undoes escaping exactly on the decodable keys. */
  lemma DecodeEncoded(k: string)
    ensures DecodeInPlace(EncodeToken(k)) == k <==> Decodable(k)
  {
    var e := EncodeToken(k);
    EncodeLonger(k);
    assert k[..0] == "";
    DecodeProgress(k, e, 0);
    var t := DecodeInPlace(e);
    if t == k {
      forall q | 0 <= q < |k| ensures k[q] != '/' && (k[q] == '~' || e[q] == k[q]) {
        NoFirstSlash(k, q);
      }
    }
  }

  /** The first slash of a run is lost. */
  lemma {:induction false} NoFirstSlash(k: string, q: nat)
    requires q < |k| <= |EncodeToken(k)|
    requires forall p :: 0 <= p < |k| ==> k[p] == DecodedByte(k, p)
    ensures k[q] != '/'
  {
    EncodeNoSlash(k);
    assert k[q] == DecodedByte(k, q);
    if q == 0 {
    } else {
      NoFirstSlash(k, q - 1);
    }
  }

  // ---- case folding does not help a key that is not decodable ----

  ghost predicate TildesAndZeros(s: string) {
    forall i :: 0 <= i < |s| ==> s[i] == '~' || s[i] == '0'
  }

  lemma {:induction false} EncodeConcat(a: string, b: string)
    ensures EncodeToken(a + b) == EncodeToken(a) + EncodeToken(b)
  {
    if a == "" {
      assert a + b == b;
    } else {
      assert (a + b)[1..] == a[1..] + b;
      EncodeConcat(a[1..], b);
    }
  }

  lemma {:induction false} EncodeTildes(s: string)
    requires TildesAndZeros(s)
    ensures TildesAndZeros(EncodeToken(s)) && |EncodeToken(s)| >= |s|
    ensures s != "" && s[0] == '~' ==> |EncodeToken(s)| > |s|
  {
    if s == "" {
    } else {
      EncodeTildes(s[1..]);
    }
  }

  /** Up to `a` the key is plain, from there to `q` it holds tildes and zeros only, a tilde first. */
  ghost predicate SurvivesTo(k: string, a: nat, q: nat) {
    && a <= q <= |k| && (forall p :: 0 <= p < a ==> k[p] != '~' && k[p] != '/')
    && TildesAndZeros(k[a..q]) && (a < q ==> k[a] == '~')
  }

  /** The byte standing at place `q` of the escaped key. */
  lemma EncodedByte(k: string, a: nat, q: nat)
    requires SurvivesTo(k, a, q) && q < |k| <= |EncodeToken(k)|
    ensures a == q ==> EncodeToken(k)[q] == EncodeChar(k[q])[0]
    ensures a < q ==> EncodeToken(k)[q] == '~' || EncodeToken(k)[q] == '0'
  {
    var plain, odd := k[..a], k[a..q];
    PlainDecodable(plain);
    EncodeTildes(odd);
    hide EncodeToken;
    assert k[..q] == plain + odd;
    EncodeConcat(plain, odd);
    if a == q {
      assert odd == "" && EncodeToken(odd) == "" by {
        EncodeEmpty();
      }
      PrefixByte(k, q);
    } else {
      assert odd[0] == k[a];
      EncodePrefix(k, q);
      ByteBehind(EncodeToken(k), plain, EncodeToken(odd), q);
    }
  }

  /** A byte of `w`, found in a text that starts with `plain + w`. */
  lemma ByteBehind(e: string, plain: string, w: string, q: nat)
    requires plain + w <= e && |plain| <= q < |plain| + |w| && TildesAndZeros(w)
    ensures e[q] == '~' || e[q] == '0'
  {
    assert e[q] == (plain + w)[q] == w[q - |plain|];
  }

  lemma EncodeEmpty()
    ensures EncodeToken("") == ""
  {
  }

  lemma PrefixByte(k: string, q: nat)
    requires q < |k| && |EncodeToken(k[..q])| == q < |EncodeToken(k)|
    ensures EncodeToken(k)[q] == EncodeChar(k[q])[0]
  {
    hide EncodeToken;
    DecodeStep(k, q);
    var r' := |EncodeToken(k[..q + 1])|;
    assert EncodeToken(k)[q..r'][0] == EncodeToken(k)[q];
  }

  lemma SurvivesByte(k: string, a: nat, q: nat)
    requires SurvivesTo(k, a, q) && q < |k| <= |EncodeToken(k)|
    requires ToLower(DecodedByte(k, q)) == ToLower(k[q])
    ensures DecodedByte(k, q) == k[q] && k[q] != '/' && (a < q ==> k[q] == '~' || k[q] == '0')
  {
    EncodedByte(k, a, q);
    hide EncodeToken;
    if q > a {
      assert k[a..q][q - 1 - a] == k[q - 1];
    }
    assert q > 0 ==> k[q - 1] != '/';
  }

  lemma {:induction false} FoldedSurvives(k: string, a: nat, q: nat)
    requires |k| <= |EncodeToken(k)| && SurvivesTo(k, a, q)
    requires forall p :: 0 <= p < |k| ==> ToLower(DecodedByte(k, p)) == ToLower(k[p])
    requires forall p :: 0 <= p < q ==> DecodedByte(k, p) == k[p]
    ensures forall p :: 0 <= p < |k| ==> DecodedByte(k, p) == k[p]
    decreases |k| - q
  {
    hide EncodeToken;
    hide DecodedByte;
    if q == |k| {
    } else {
      SurvivesByte(k, a, q);
      assert k[a..q + 1] == k[a..q] + [k[q]];
      if a == q && k[q] != '~' {
        assert k[q + 1..q + 1] == "";
        FoldedSurvives(k, q + 1, q + 1);
      } else {
        FoldedSurvives(k, a, q + 1);
      }
    }
  }

  /** Read back from a last token, a key names the same member exactly when it is decodable. */
  lemma DecodedSameKey(k: string, cs: bool)
    ensures SameKey(DecodeInPlace(EncodeToken(k)), k, cs) <==> Decodable(k)
  {
    var t := DecodeInPlace(EncodeToken(k));
    DecodeEncoded(k);
    if SameKey(t, k, cs) && !cs {
      EncodeLonger(k);
      assert k[..0] == "";
      DecodeProgress(k, EncodeToken(k), 0);
      assert Lower(t) == Lower(k);
      forall p | 0 <= p < |k| ensures ToLower(DecodedByte(k, p)) == ToLower(k[p]) {
        assert Lower(t)[p] == Lower(k)[p];
      }
      FoldedSurvives(k, 0, 0);
      assert t == k;
    }
  }

  /** Keys free of the two special bytes are decodable. */
  lemma {:induction false} PlainDecodable(k: string)
    requires '~' !in k && '/' !in k
    ensures EncodeToken(k) == k && Decodable(k)
  {
    if k == "" {
    } else {
      assert k == [k[0]] + k[1..];
      PlainDecodable(k[1..]);
    }
  }

  /** A key with a slash is not found again. */
  lemma SlashNotDecodable()
    ensures EncodeToken("a/b") == "a~1b" && DecodeInPlace("a~1b") == "a~/"
  {
    assert "a/b"[1..] == "/b" && "/b"[1..] == "b" && "b"[1..] == "";
    assert EncodeToken("b") == "b";
    assert EncodeToken("/b") == "~1b";
    assert DecodeFrom("a~1b", 0, 0) == DecodeFrom("a~1b", 1, 1);
    assert "a~1b"[2 := '/'] == "a~/b";
    assert DecodeFrom("a~1b", 1, 1) == DecodeFrom("a~/b", 2, 3) == DecodeFrom("a~/b", 3, 4) == "a~/";
  }

  // ---- edits ----

  function LastSlash(s: string): (i: int)
    ensures -1 <= i < |s|
    ensures i >= 0 ==> s[i] == '/'
  {
    if s == "" then -1
    else if s[|s| - 1] == '/' then |s| - 1
    else LastSlash(s[..|s| - 1])
  }

  /** `j` with its child number `i` replaced. */
  function SetChild(j: Json, i: nat, v: Json): (r: Json)
    requires i < |Children(j)|
    ensures |Children(r)| == |Children(j)| && Children(r)[i] == v
  {
    match j
    case Arr(es) => Arr(es[i := v])
    case Obj(ms) => Obj(WithValue(ms, i, v))
  }

  lemma SetChildSame(j: Json, i: nat)
    requires i < |Children(j)|
    ensures SetChild(j, i, Children(j)[i]) == j
  {
    if j.Obj? {
      assert WithValue(j.members, i, j.members[i].value) == j.members;
    } else {
      assert j.elems[i := j.elems[i]] == j.elems;
    }
  }

  lemma SetChildTwice(j: Json, i: nat, u: Json, v: Json)
    requires i < |Children(j)|
    ensures SetChild(SetChild(j, i, u), i, v) == SetChild(j, i, v)
  {
    if j.Obj? {
      assert WithValue(WithValue(j.members, i, u), i, v) == WithValue(j.members, i, v);
    } else {
      assert j.elems[i := u][i := v] == j.elems[i := v];
    }
  }

  /** `j` with the item at `path` replaced. */
  function Put(j: Json, path: seq<nat>, v: Json): Json
    requires ValidPath(j, path)
    decreases |path|
  {
    if path == [] then v
    else SetChild(j, path[0], Put(Children(j)[path[0]], path[1..], v))
  }

  /** The child of `parent` an unescaped last token names, for removal: keys always ignore case. */
  function RemovalTarget(parent: Json, token: string): (r: Option<nat>)
    ensures r.Some? ==> r.value < |Children(parent)|
  {
    match parent
    case Arr(es) =>
      var i := DecodeIndex(token);
      if i.Some? && i.value < |es| then i else None
    case Obj(ms) =>
      var i := FindKey(ms, token, false);
      if i < |ms| then Some(i) else None
    case _ => None
  }

  function WithoutChild(j: Json, i: nat): Json
    requires i < |Children(j)|
  {
    match j
    case Arr(es) => Arr(Without(es, i))
    case Obj(ms) => Obj(Without(ms, i))
  }

  /** Taking the item that unescaped `token` names out of the item at `parent`; the item and what is left. */
  function DetachAt(root: Json, parent: string, token: string, cs: bool): Option<(Json, Json)> {
    match GetItem(root, parent, cs)
    case None => None
    case Some(p) =>
      match RemovalTarget(At(root, p), token)
      case None => None
      case Some(i) => Some((Children(At(root, p))[i], Put(root, p, WithoutChild(At(root, p), i))))
  }

  /** `detach_path`. */
  function DetachPath(root: Json, path: string, cs: bool): Option<(Json, Json)> {
    var s := LastSlash(path);
    if s < 0 then None else DetachAt(root, path[..s], DecodeInPlace(path[s + 1..]), cs)
  }

  datatype Outcome = Outcome(status: int, doc: Json)

  /** Putting `v` under an unescaped last token of `parent`. */
  function AddChild(parent: Json, token: string, v: Json, cs: bool): Outcome {
    match parent
    case Arr(es) =>
      if token == "-" then Outcome(0, Arr(es + [v]))
      else (
        match DecodeIndex(token)
        case None => Outcome(11, parent)
        case Some(i) => if i > |es| then Outcome(10, parent) else Outcome(0, Arr(es[..i] + [v] + es[i..])))
    case Obj(ms) =>
      var i := FindKey(ms, token, cs);
      var rest := if i < |ms| then Without(ms, i) else ms;
      Outcome(0, Obj(rest + [Member(token, v)]))
    case _ => Outcome(9, parent)
  }

  function AddAt(root: Json, parent: string, token: string, v: Json, cs: bool): Outcome {
    match GetItem(root, parent, cs)
    case None => Outcome(9, root)
    case Some(p) =>
      var r := AddChild(At(root, p), token, v, cs);
      if r.status == 0 then Outcome(0, Put(root, p, r.doc)) else Outcome(r.status, root)
  }

  /** The last part of `apply_patch`: put `v` at `path`. */
  function AddPath(root: Json, path: string, v: Json, cs: bool): Outcome {
    var s := LastSlash(path);
    if s < 0 then Outcome(9, root) else AddAt(root, path[..s], DecodeInPlace(path[s + 1..]), v, cs)
  }

  // ---- one operation ----

  datatype Opcode = Add | Remove | Replace | Move | Copy | Test

  /** A patch with a path and a known operation; the two other members may be missing. */
  datatype Op = Op(code: Opcode, path: string, value: Option<Json>, from: Option<Json>)

  /** `apply_patch` after the operation has been decoded. An item that is read from the patch is
      duplicated, which on values is the item itself. A test sorts what it compares. */
  ghost function ApplyOp(root: Json, op: Op, cs: bool): Outcome {
    match op.code
    case Test => (
      match GetItem(root, op.path, cs)
      case None => Outcome(1, root)
      case Some(p) =>
        if op.value.None? then Outcome(1, root)
        else
          var c := CompareTwo(At(root, p), op.value.value, cs);
          Outcome(if c.same then 0 else 1, Put(root, p, c.left)))
    case Remove =>
      if op.path == "" then Outcome(0, Invalid)
      else (
        match DetachPath(root, op.path, cs)
        case None => Outcome(13, root)
        case Some((_, rest)) => Outcome(0, rest))
    case Replace =>
      if op.path == "" then (if op.value.None? then Outcome(7, root) else Outcome(0, op.value.value))
      else (
        match DetachPath(root, op.path, cs)
        case None => Outcome(13, root)
        case Some((_, rest)) =>
          if op.value.None? then Outcome(7, rest) else AddPath(rest, op.path, op.value.value, cs))
    case Add =>
      if op.value.None? then Outcome(7, root)
      else if op.path == "" then Outcome(0, op.value.value)
      else AddPath(root, op.path, op.value.value, cs)
    case Move =>
      if op.from.None? then Outcome(4, root)
      else if !op.from.value.Str? then Outcome(5, root)
      else (
        match DetachPath(root, op.from.value.s, cs)
        case None => Outcome(5, root)
        case Some((item, rest)) => AddPath(rest, op.path, item, cs))
    case Copy =>
      if op.from.None? then Outcome(4, root)
      else if !op.from.value.Str? then Outcome(5, root)
      else (
        match GetItem(root, op.from.value.s, cs)
        case None => Outcome(5, root)
        case Some(p) => AddPath(root, op.path, At(root, p), cs))
  }

  // ---- a patch as JSON ----

  /** `get_object_item`. */
  function Lookup(j: Json, name: string, cs: bool): Option<Json> {
    if j.Obj? && FindKey(j.members, name, cs) < |j.members|
    then Some(j.members[FindKey(j.members, name, cs)].value) else None
  }

  /** `decode_patch_operation`. */
  function DecodeOpcode(patch: Json, cs: bool): Option<Opcode> {
    match Lookup(patch, "op", cs)
    case Some(Str(s)) =>
      if s == "add" then Some(Add)
      else if s == "remove" then Some(Remove)
      else if s == "replace" then Some(Replace)
      else if s == "move" then Some(Move)
      else if s == "copy" then Some(Copy)
      else if s == "test" then Some(Test)
      else None
    case _ => None
  }

  ghost function ApplyPatch(root: Json, patch: Json, cs: bool): Outcome {
    match Lookup(patch, "path", cs)
    case Some(Str(path)) => (
      match DecodeOpcode(patch, cs)
      case None => Outcome(3, root)
      case Some(code) =>
        ApplyOp(root, Op(code, path, Lookup(patch, "value", cs), Lookup(patch, "from", cs)), cs))
    case _ => Outcome(2, root)
  }

  /** A list of patches up to the first that fails. */
  ghost function ApplyPatches(root: Json, patches: seq<Json>, cs: bool): Outcome
    decreases |patches|
  {
    if patches == [] then Outcome(0, root)
    else
      var r := ApplyPatch(root, patches[0], cs);
      if r.status != 0 then r else ApplyPatches(r.doc, patches[1..], cs)
  }
}
