/** JSON Pointer: writing the pointer of an item, and following a pointer to an item. An item is
    named by its position, the child numbers on the way down from the root. */
module Pointer {
  import opened Text
  import opened Json

  /** A token ends at the next slash or at the end of the pointer. */
  predicate AtEnd(s: string) {
    s == "" || s[0] == '/'
  }

  // ---- escaping ----

  function EncodeChar(c: char): string {
    if c == '/' then "~1" else if c == '~' then "~0" else [c]
  }

  function EncodeToken(k: string): string {
    if k == "" then "" else EncodeChar(k[0]) + EncodeToken(k[1..])
  }

  lemma {:induction false} EncodeSnoc(k: string, i: nat)
    requires i < |k|
    ensures EncodeToken(k[..i + 1]) == EncodeToken(k[..i]) + EncodeChar(k[i])
    decreases i
  {
    if i > 0 {
      assert k[..i + 1][1..] == k[1..][..i];
      assert k[..i][1..] == k[1..][..i - 1];
      EncodeSnoc(k[1..], i - 1);
      assert EncodeToken(k[..i + 1]) == EncodeChar(k[0]) + EncodeToken(k[1..][..i]);
    } else {
      assert k[..1] == [k[0]] && k[..1][1..] == "" && k[..0] == "";
    }
  }

  lemma {:induction false} EncodeGrows(k: string, i: nat)
    requires i <= |k|
    ensures |EncodeToken(k[..i])| <= |EncodeToken(k)|
    decreases |k| - i
  {
    if i < |k| {
      EncodeSnoc(k, i);
      EncodeGrows(k, i + 1);
    } else {
      assert k[..i] == k;
    }
  }

  /** `pointer_encoded_length`. */
  method EncodedLength(k: string) returns (length: nat)
    ensures length == |EncodeToken(k)|
  {
    length := 0;
    for i := 0 to |k|
      invariant length == |EncodeToken(k[..i])|
    {
      EncodeSnoc(k, i);
      if k[i] == '~' || k[i] == '/' {
        length := length + 1;
      }
      length := length + 1;
    }
    assert k[..|k|] == k;
  }

  method EncodeCharInto(destination: array<char>, ghost from: nat, d: nat, c: char) returns (next: nat)
    requires from <= d && d + |EncodeChar(c)| <= destination.Length
    modifies destination
    ensures next == d + |EncodeChar(c)|
    ensures destination[from..next] == old(destination[from..d]) + EncodeChar(c)
    ensures destination[..from] == old(destination[..from])
    ensures destination[next..] == old(destination[next..])
  {
    next := d;
    if c == '/' {
      destination[next] := '~';
      destination[next + 1] := '1';
      next := next + 1;
    } else if c == '~' {
      destination[next] := '~';
      destination[next + 1] := '0';
      next := next + 1;
    } else {
      destination[next] := c;
    }
    next := next + 1;
  }

  /** `encode_string_as_pointer`: the escaped text and a terminator go to `destination[from..]`. */
  method EncodeInto(destination: array<char>, from: nat, k: string)
    requires from + |EncodeToken(k)| < destination.Length
    modifies destination
    ensures destination[from..from + |EncodeToken(k)|] == EncodeToken(k)
    ensures destination[from + |EncodeToken(k)|] == NUL
    ensures destination[..from] == old(destination[..from])
    ensures destination[from + |EncodeToken(k)| + 1..] == old(destination[from + |EncodeToken(k)| + 1..])
  {
    var d := from;
    assert EncodeToken(k[..0]) == "";
    hide EncodeToken;
    hide EncodeChar;
    for i := 0 to |k|
      invariant from <= d == from + |EncodeToken(k[..i])| <= from + |EncodeToken(k)|
      invariant destination[from..d] == EncodeToken(k[..i])
      invariant destination[..from] == old(destination[..from])
      invariant destination[d..] == old(destination[d..])
    {
      EncodeSnoc(k, i);
      EncodeGrows(k, i + 1);
      ghost var here := destination[d..];
      var next := EncodeCharInto(destination, from, d, k[i]);
      assert destination[next..] == here[next - d..];
      d := next;
    }
    assert k[..|k|] == k;
    ghost var here := destination[d..];
    destination[d] := NUL;
    assert destination[d + 1..] == here[1..];
  }

  // ---- matching a token against a key ----

  /** `compare_pointers`. */
  predicate ComparePointers(name: string, pointer: string, cs: bool) {
    if name != "" && !AtEnd(pointer) then
      if pointer[0] == '~' then
        var e := ByteAt(pointer, 1);
        ((e == '0' && name[0] == '~') || (e == '1' && name[0] == '/')) &&
        |pointer| >= 2 && ComparePointers(name[1..], pointer[2..], cs)
      else
        (if cs then name[0] == pointer[0] else ToLower(name[0]) == ToLower(pointer[0])) &&
        ComparePointers(name[1..], pointer[1..], cs)
    else !AtEnd(pointer) == (name != "")
  }

  method ComparePointersLoop(name: string, pointer: string, cs: bool) returns (r: bool)
    ensures r == ComparePointers(name, pointer, cs)
  {
    var i, j := 0, 0;
    while i < |name| && j < |pointer| && pointer[j] != '/'
      invariant i <= |name| && j <= |pointer|
      invariant ComparePointers(name, pointer, cs) == ComparePointers(name[i..], pointer[j..], cs)
    {
      if pointer[j] == '~' {
        var e := ByteAt(pointer, j + 1);
        assert ByteAt(pointer[j..], 1) == e;
        if (e != '0' || name[i] != '~') && (e != '1' || name[i] != '/') {
          return false;
        }
        assert pointer[j..][2..] == pointer[j + 2..];
        j := j + 1;
      } else if (!cs && ToLower(name[i]) != ToLower(pointer[j])) || (cs && name[i] != pointer[j]) {
        return false;
      }
      assert name[i..][1..] == name[i + 1..];
      assert pointer[j..][1..] == pointer[j + 1..];
      i, j := i + 1, j + 1;
    }
    r := (j < |pointer| && pointer[j] != '/') == (i < |name|);
  }

  lemma FoldStep(a: string, b: string, cs: bool)
    requires a != "" && b != ""
    ensures SameKey(a, b, cs) <==>
      (if cs then a[0] == b[0] else ToLower(a[0]) == ToLower(b[0])) && SameKey(a[1..], b[1..], cs)
  {
    FoldHead(a, cs);
    FoldHead(b, cs);
    hide Fold;
    hide ToLower;
    var s, t := Fold(a, cs), Fold(b, cs);
    assert s[1..] == Fold(a[1..], cs) && t[1..] == Fold(b[1..], cs);
    assert s == [s[0]] + s[1..] && t == [t[0]] + t[1..];
  }

  lemma FoldHead(a: string, cs: bool)
    requires a != ""
    ensures Fold(a, cs) == [if cs then a[0] else ToLower(a[0])] + Fold(a[1..], cs)
  {
    hide ToLower;
    if !cs {
      assert |Lower(a)| == |a|;
      assert Lower(a)[1..] == Lower(a[1..]);
    }
  }

  /** An escaped key matches exactly the names it stands for. */
  lemma {:induction false} EncodedMatches(name: string, k: string, rest: string, cs: bool)
    requires AtEnd(rest)
    ensures ComparePointers(name, EncodeToken(k) + rest, cs) <==> SameKey(name, k, cs)
  {
    var p := EncodeToken(k) + rest;
    if k == "" {
      assert p == rest;
      assert |Fold(name, cs)| == |name| && Fold(k, cs) == "";
    } else if name == "" {
      assert p[0] == EncodeChar(k[0])[0];
      assert |Fold(k, cs)| == |k|;
    } else {
      FoldStep(name, k, cs);
      EncodedMatches(name[1..], k[1..], rest, cs);
      EncodedStep(name, k, rest, cs);
    }
  }

  lemma EncodedStep(name: string, k: string, rest: string, cs: bool)
    requires AtEnd(rest) && name != "" && k != ""
    ensures ComparePointers(name, EncodeToken(k) + rest, cs) <==>
      (if cs then name[0] == k[0] else ToLower(name[0]) == ToLower(k[0])) &&
      ComparePointers(name[1..], EncodeToken(k[1..]) + rest, cs)
  {
    Associate(EncodeChar(k[0]), EncodeToken(k[1..]), rest);
    assert EncodeToken(k) == EncodeChar(k[0]) + EncodeToken(k[1..]);
    hide EncodeToken;
    FirstMatches(name, k[0], EncodeToken(k[1..]) + rest, cs);
    hide ComparePointers;
  }

  /** The escaped text of one byte against the first byte of a name. */
  lemma FirstMatches(name: string, c: char, q: string, cs: bool)
    requires name != ""
    ensures ComparePointers(name, EncodeChar(c) + q, cs) <==>
      (if cs then name[0] == c else ToLower(name[0]) == ToLower(c)) && ComparePointers(name[1..], q, cs)
  {
    var p := EncodeChar(c) + q;
    if c == '/' || c == '~' {
      assert p[0] == '~' && p[1] == EncodeChar(c)[1] && p[2..] == q;
    } else {
      assert p[0] == c && p[1..] == q;
    }
  }

  // ---- array positions ----

  function DigitChar(d: nat): char
    requires d < 10
  {
    ('0' as int + d) as char
  }

  /** `%lu`. */
  function Digits(n: nat): (s: string)
    ensures s != ""
  {
    if n < 10 then [DigitChar(n)] else Digits(n / 10) + [DigitChar(n % 10)]
  }

  /** The digit loop: it takes every byte from `0` upwards, and `size_t` wraps around. */
  function ScanIndex(s: string, acc: nat): (r: (string, nat))
    ensures acc <= SIZE_MAX ==> r.1 <= SIZE_MAX
  {
    if s != "" && s[0] >= '0' then ScanIndex(s[1..], (10 * acc + (s[0] as int - '0' as int)) % WORD)
    else (s, acc)
  }

  /** `decode_array_index_from_pointer`. The bound on the digits looks at the first byte only. */
  function DecodeIndex(s: string): Option<nat> {
    if s != "" && s[0] == '0' && !AtEnd(s[1..]) then None
    else
      var (rest, n) := if s != "" && s[0] <= '9' then ScanIndex(s, 0) else (s, 0);
      if AtEnd(rest) then Some(n) else None
  }

  method DecodeIndexLoop(s: string) returns (r: Option<nat>)
    ensures r == DecodeIndex(s)
  {
    if s != "" && s[0] == '0' && 1 < |s| && s[1] != '/' {
      return None;
    }
    var index: nat, position := 0, 0;
    while position < |s| && s[position] >= '0' && s[0] <= '9'
      invariant position <= |s| && index <= SIZE_MAX
      invariant s != "" && s[0] <= '9' ==> ScanIndex(s, 0) == ScanIndex(s[position..], index)
      invariant s == "" || s[0] > '9' ==> position == 0 && index == 0
    {
      index := (10 * index + (s[position] as int - '0' as int)) % WORD;
      assert s[position..][1..] == s[position + 1..];
      position := position + 1;
    }
    if position < |s| && s[position] != '/' {
      return None;
    }
    r := Some(index);
  }

  /** How many values a `size_t` has. */
  const WORD: nat := SIZE_MAX + 1

  lemma {:induction false} ScanDigits(n: nat, rest: string)
    ensures ScanIndex(Digits(n) + rest, 0) == ScanIndex(rest, n % WORD)
    ensures '0' <= Digits(n)[0] <= '9' && (Digits(n)[0] == '0' ==> n == 0)
  {
    var d := DigitChar(n % 10);
    if n < 10 {
      ScanDigit(n, 0, rest);
    } else {
      ScanDigits(n / 10, [d] + rest);
      ScanDigit(n % 10, n / 10 % WORD, rest);
      WrapStep(n / 10, n % 10);
      assert Digits(n) + rest == Digits(n / 10) + ([d] + rest);
    }
  }

  lemma ScanDigit(d: nat, acc: nat, rest: string)
    requires d < 10
    ensures ScanIndex([DigitChar(d)] + rest, acc) == ScanIndex(rest, (10 * acc + d) % WORD)
  {
    assert ([DigitChar(d)] + rest)[1..] == rest;
    assert DigitChar(d) as int - '0' as int == d;
  }

  /** Wrapping around before a digit is added changes nothing. */
  lemma WrapStep(q: nat, d: nat)
    ensures (10 * (q % WORD) + d) % WORD == (10 * q + d) % WORD
  {
    var k, r := q / WORD, q % WORD;
    assert 10 * q + d == (10 * r + d) + WORD * (10 * k);
    AddWords(10 * r + d, 10 * k);
  }

  lemma AddWords(x: nat, k: nat)
    ensures (x + WORD * k) % WORD == x % WORD
  {
    var y := x + WORD * k;
    assert y == WORD * (x / WORD + k) + x % WORD;
  }

  lemma ScanStops(rest: string, n: nat)
    requires AtEnd(rest)
    ensures ScanIndex(rest, n) == (rest, n)
  {
  }

  lemma WrapsAt(n: nat)
    ensures n % WORD == n <==> n <= SIZE_MAX
  {
  }

  lemma ZeroDigits(rest: string)
    ensures (Digits(0) + rest)[1..] == rest
  {
    assert Digits(0) == ['0'];
  }

  /** Reading back a printed number: it wraps around. */
  lemma DecodeDigits(n: nat, rest: string)
    requires AtEnd(rest)
    ensures DecodeIndex(Digits(n) + rest) == Some(n % WORD)
    ensures DecodeIndex(Digits(n) + rest) == Some(n) <==> n <= SIZE_MAX
  {
    hide Digits;
    hide ScanIndex;
    var s := Digits(n) + rest;
    ScanDigits(n, rest);
    ScanStops(rest, n % WORD);
    WrapsAt(n);
    ZeroDigits(rest);
    assert s[0] == Digits(n)[0];
  }

  lemma {:induction false} ScanAll(t: string, acc: nat)
    requires '/' !in t
    ensures AtEnd(ScanIndex(t, acc).0) <==> forall i :: 0 <= i < |t| ==> t[i] >= '0'
  {
    if t == "" || t[0] < '0' {
    } else {
      ScanAll(t[1..], (10 * acc + (t[0] as int - '0' as int)) % WORD);
    }
  }

  /** Exactly which tokens pass for positions. Section 4 of RFC 6901 asks for digits throughout, and for one. */
  lemma IndexAccepted(t: string)
    requires '/' !in t
    ensures DecodeIndex(t).Some? <==>
      t == "" || (t[0] <= '9' && (forall i :: 0 <= i < |t| ==> t[i] >= '0') && (t[0] == '0' ==> |t| == 1))
  {
    ScanAll(t, 0);
  }

  lemma ScanByte(c: char, acc: nat)
    requires c >= '0'
    ensures ScanIndex([c], acc) == ("", (10 * acc + (c as int - '0' as int)) % WORD)
  {
    assert [c][1..] == "";
  }

  lemma IndexScanned(s: string, n: nat)
    requires s != "" && '1' <= s[0] <= '9' && ScanIndex(s, 0) == ("", n)
    ensures DecodeIndex(s) == Some(n)
  {
    hide ScanIndex;
  }

  lemma ColonScanned(s: string)
    requires |s| == 2 && s[0] == '1' && s[1] == ':'
    ensures ScanIndex(s, 0) == ("", 20)
  {
    assert s == [DigitChar(1)] + [':'];
    ScanDigit(1, 0, [':']);
    ScanByte(':', 1);
    hide ScanIndex;
  }

  /** The empty token and a token with a colon pass. */
  lemma IndexTooGenerous()
    ensures DecodeIndex("") == Some(0) && DecodeIndex("1:") == Some(20)
  {
    ColonScanned("1:");
    IndexScanned("1:", 20);
    hide ScanIndex;
  }

  /** 2 to the power 64 passes for 0. */
  lemma IndexWraps()
    ensures DecodeIndex("18446744073709551616") == Some(0)
  {
    hide Digits;
    hide DecodeIndex;
    WordDigits();
    DecodeDigits(WORD, "");
    NothingBehind(Digits(WORD));
  }

  lemma NothingBehind(s: string)
    ensures s + "" == s
  {
  }

  lemma DigitsStep(n: nat, t: string)
    requires n >= 10 && Digits(n / 10) == t
    ensures Digits(n) == t + [DigitChar(n % 10)]
  {
  }

  lemma WordDigits()
    ensures Digits(WORD) == "18446744073709551616"
  {
    assert Digits(1) == "1";
    DigitsStep(18, "1");
    DigitsStep(184, "18");
    DigitsStep(1844, "184");
    DigitsStep(18446, "1844");
    DigitsStep(184467, "18446");
    DigitsStep(1844674, "184467");
    DigitsStep(18446744, "1844674");
    DigitsStep(184467440, "18446744");
    DigitsStep(1844674407, "184467440");
    DigitsStep(18446744073, "1844674407");
    DigitsStep(184467440737, "18446744073");
    DigitsStep(1844674407370, "184467440737");
    DigitsStep(18446744073709, "1844674407370");
    DigitsStep(184467440737095, "18446744073709");
    DigitsStep(1844674407370955, "184467440737095");
    DigitsStep(18446744073709551, "1844674407370955");
    DigitsStep(184467440737095516, "18446744073709551");
    DigitsStep(1844674407370955161, "184467440737095516");
    DigitsStep(18446744073709551616, "1844674407370955161");
  }

  // ---- following a pointer ----

  function SkipToken(s: string): (r: string)
    ensures |r| <= |s| && AtEnd(r)
  {
    if AtEnd(s) then s else SkipToken(s[1..])
  }

  /** The first member whose key matches the token. */
  function FindToken<T>(ms: seq<Member<T>>, pointer: string, cs: bool): (i: nat)
    ensures i <= |ms|
  {
    if ms == [] then 0
    else if ComparePointers(ms[0].key, pointer, cs) then 0
    else 1 + FindToken(ms[1..], pointer, cs)
  }

  function Cons(i: nat, r: Option<seq<nat>>): Option<seq<nat>> {
    match r
    case None => None
    case Some(p) => Some([i] + p)
  }

  /** The child a token leads to; None for a token that leads nowhere. */
  function Step(j: Json, token: string, cs: bool): (r: Option<nat>)
    ensures r.Some? ==> r.value < |Children(j)|
  {
    match j
    case Arr(es) =>
      var i := DecodeIndex(token);
      if i.Some? && i.value < |es| then i else None
    case Obj(ms) =>
      var i := FindToken(ms, token, cs);
      if i < |ms| then Some(i) else None
    case _ => None
  }

  function Children(j: Json): seq<Json> {
    match j
    case Arr(es) => es
    case Obj(ms) => seq(|ms|, i requires 0 <= i < |ms| => ms[i].value)
    case _ => []
  }

  /** `get_item_from_pointer`. A pointer that does not start with a slash names the item itself. */
  function GetItem(j: Json, pointer: string, cs: bool): (r: Option<seq<nat>>)
    ensures r.Some? ==> ValidPath(j, r.value)
    decreases |pointer|
  {
    if pointer == "" || pointer[0] != '/' then Some([])
    else
      var token := pointer[1..];
      match Step(j, token, cs)
      case None => None
      case Some(i) => Cons(i, GetItem(Children(j)[i], SkipToken(token), cs))
  }

  predicate ValidPath(j: Json, path: seq<nat>)
    decreases |path|
  {
    path == [] || (path[0] < |Children(j)| && ValidPath(Children(j)[path[0]], path[1..]))
  }

  function At(j: Json, path: seq<nat>): Json
    requires ValidPath(j, path)
    decreases |path|
  {
    if path == [] then j else At(Children(j)[path[0]], path[1..])
  }

  function Join(p: seq<nat>, r: Option<seq<nat>>): Option<seq<nat>> {
    match r
    case None => None
    case Some(q) => Some(p + q)
  }

  lemma JoinCons(p: seq<nat>, i: nat, r: Option<seq<nat>>)
    ensures Join(p, Cons(i, r)) == Join(p + [i], r)
  {
    if r.Some? {
      assert p + ([i] + r.value) == (p + [i]) + r.value;
    }
  }

  method GetItemFromPointer(root: Json, pointer: string, cs: bool) returns (r: Option<seq<nat>>)
    ensures r == GetItem(root, pointer, cs)
  {
    var current, path, p := root, [], pointer;
    ghost var found := GetItem(root, pointer, cs);
    assert found.Some? ==> [] + found.value == found.value;
    while p != "" && p[0] == '/'
      invariant found == Join(path, GetItem(current, p, cs))
      decreases |p|
    {
      var child := StepLoop(current, p[1..], cs);
      if child.None? {
        return None;
      }
      var rest := SkipTokenLoop(p[1..]);
      JoinCons(path, child.value, GetItem(Children(current)[child.value], rest, cs));
      path := path + [child.value];
      current := Children(current)[child.value];
      p := rest;
    }
    assert path + [] == path;
    r := Some(path);
  }

  method StepLoop(current: Json, token: string, cs: bool) returns (r: Option<nat>)
    ensures r == Step(current, token, cs)
  {
    r := None;
    if current.Arr? {
      var index := DecodeIndexLoop(token);
      if index.Some? && index.value < |current.elems| {
        r := index;
      }
    } else if current.Obj? {
      var i := FindTokenLoop(current.members, token, cs);
      if i < |current.members| {
        r := Some(i);
      }
    }
  }

  method SkipTokenLoop(token: string) returns (p: string)
    ensures p == SkipToken(token)
  {
    p := token;
    while p != "" && p[0] != '/'
      invariant SkipToken(p) == SkipToken(token)
      decreases |p|
    {
      p := p[1..];
    }
  }

  method FindTokenLoop(ms: seq<Member<Json>>, pointer: string, cs: bool) returns (i: nat)
    ensures i == FindToken(ms, pointer, cs)
  {
    i := 0;
    while i < |ms|
      invariant i <= |ms|
      invariant FindToken(ms, pointer, cs) == i + FindToken(ms[i..], pointer, cs)
    {
      var hit := ComparePointersLoop(ms[i].key, pointer, cs);
      if hit {
        return;
      }
      assert ms[i..][1..] == ms[i + 1..];
      i := i + 1;
    }
  }

  // ---- the pointer of an item ----

  function TokenText(j: Json, i: nat): string
    requires i < |Children(j)|
  {
    if j.Obj? then EncodeToken(j.members[i].key) else Digits(i)
  }

  function PointerTo(j: Json, path: seq<nat>): string
    requires ValidPath(j, path)
    decreases |path|
  {
    if path == [] then ""
    else "/" + TokenText(j, path[0]) + PointerTo(Children(j)[path[0]], path[1..])
  }

  lemma ChildSmaller(j: Json, i: nat)
    requires i < |Children(j)|
    ensures Size(Children(j)[i]) < Size(j)
  {
    SizeChildren(j);
  }

  /** `cJSONUtils_FindPointerFromObjectTo`: search below the item at `here` for the item at `target`. */
  method FindPointer(j: Json, here: seq<nat>, target: seq<nat>) returns (r: Option<string>)
    ensures r.Some? <==> here <= target && ValidPath(j, target[|here|..])
    ensures r.Some? ==> r.value == PointerTo(j, target[|here|..])
    decreases Size(j)
  {
    if here == target {
      return Some("");
    }
    var children := Children(j);
    for i := 0 to |children|
      invariant !(here < target && target[|here|] < i && ValidPath(j, target[|here|..]))
    {
      ChildSmaller(j, i);
      var below := FindPointer(children[i], here + [i], target);
      if below.Some? {
        assert target[|here|..][0] == i && target[|here|..][1..] == target[|here| + 1..];
        if j.Arr? {
          return Some("/" + Digits(i) + below.value);
        }
        return Some("/" + EncodeToken(j.members[i].key) + below.value);
      }
      if here < target && target[|here|] == i {
        assert target[..|here| + 1] == here + [i];
        assert target[|here|..][1..] == target[|here| + 1..];
      }
    }
    r := None;
  }

  // ---- the round trip ----

  /** On the way down no earlier sibling has the key of the item passed, and positions fit `size_t`. */
  predicate FirstNamed(j: Json, path: seq<nat>, cs: bool)
    requires ValidPath(j, path)
    decreases |path|
  {
    path == [] ||
    (var i := path[0];
     && (j.Obj? ==> FindKey(j.members, j.members[i].key, cs) == i)
     && FirstNamed(Children(j)[i], path[1..], cs))
  }

  lemma {:induction false} FindEncoded(ms: seq<Member<Json>>, k: string, rest: string, cs: bool)
    requires AtEnd(rest)
    ensures FindToken(ms, EncodeToken(k) + rest, cs) == FindKey(ms, k, cs)
  {
    if ms == [] {
    } else {
      EncodedMatches(ms[0].key, k, rest, cs);
      FindEncoded(ms[1..], k, rest, cs);
    }
  }

  lemma {:induction false} SkipText(t: string, rest: string)
    requires AtEnd(rest) && forall i :: 0 <= i < |t| ==> t[i] != '/'
    ensures SkipToken(t + rest) == rest
  {
    if t == "" {
      assert t + rest == rest;
    } else {
      assert (t + rest)[1..] == t[1..] + rest;
      SkipText(t[1..], rest);
    }
  }

  lemma {:induction false} EncodeNoSlash(k: string)
    ensures forall i :: 0 <= i < |EncodeToken(k)| ==> EncodeToken(k)[i] != '/'
  {
    if k == "" {
    } else {
      EncodeNoSlash(k[1..]);
    }
  }

  lemma {:induction false} DigitsInRange(n: nat)
    ensures forall i :: 0 <= i < |Digits(n)| ==> '0' <= Digits(n)[i] <= '9'
  {
    assert forall d: nat :: d < 10 ==> '0' <= DigitChar(d) <= '9';
    if n < 10 {
    } else {
      DigitsInRange(n / 10);
    }
  }

  /** Arrays are no longer than `size_t` can count, everywhere in the tree. */
  ghost predicate Addressable(j: Json) {
    match j
    case Arr(es) => |es| <= SIZE_MAX && forall i :: 0 <= i < |es| ==> Addressable(es[i])
    case Obj(ms) => forall i :: 0 <= i < |ms| ==> Addressable(ms[i].value)
    case _ => true
  }

  /** One token: the child found is the one the token was written for, or one of the same key before it. */
  lemma StepToken(j: Json, i: nat, rest: string, cs: bool)
    requires i < |Children(j)| && Addressable(j) && AtEnd(rest)
    ensures SkipToken(TokenText(j, i) + rest) == rest
    ensures Step(j, TokenText(j, i) + rest, cs) ==
      Some(if j.Obj? then FindKey(j.members, j.members[i].key, cs) else i)
  {
    if j.Obj? {
      FindEncoded(j.members, j.members[i].key, rest, cs);
      FindFirst(j.members, j.members[i].key, cs, i);
      EncodeNoSlash(j.members[i].key);
    } else {
      DecodeDigits(i, rest);
      DigitsInRange(i);
    }
    SkipText(TokenText(j, i), rest);
  }

  lemma {:induction false} PointerStarts(j: Json, path: seq<nat>)
    requires ValidPath(j, path)
    ensures AtEnd(PointerTo(j, path))
  {
  }

  /** The first child with the name of child number `i`. */
  function NamedAs(j: Json, i: nat, cs: bool): (f: nat)
    requires i < |Children(j)|
    ensures f < |Children(j)|
  {
    if j.Obj? then
      FindFirst(j.members, j.members[i].key, cs, i);
      FindKey(j.members, j.members[i].key, cs)
    else i
  }

  /** The first token of an item's pointer. */
  lemma FirstItem(j: Json, path: seq<nat>, cs: bool)
    requires ValidPath(j, path) && path != [] && Addressable(j)
    ensures var f, below := NamedAs(j, path[0], cs), PointerTo(Children(j)[path[0]], path[1..]);
      GetItem(j, PointerTo(j, path), cs) == Cons(f, GetItem(Children(j)[f], below, cs))
  {
    var i, below := path[0], PointerTo(Children(j)[path[0]], path[1..]);
    PointerHead(j, path);
    hide TokenText;
    hide Step;
    hide SkipToken;
    hide Addressable;
    hide PointerTo;
    PointerStarts(Children(j)[i], path[1..]);
    StepToken(j, i, below, cs);
  }

  lemma PointerHead(j: Json, path: seq<nat>)
    requires ValidPath(j, path) && path != []
    ensures var p := PointerTo(j, path);
      p != "" && p[0] == '/' && p[1..] == TokenText(j, path[0]) + PointerTo(Children(j)[path[0]], path[1..])
  {
    hide TokenText;
    var text, below := TokenText(j, path[0]), PointerTo(Children(j)[path[0]], path[1..]);
    SlashFirst(text, below);
    hide PointerTo;
    hide ValidPath;
  }

  lemma SlashFirst(text: string, below: string)
    ensures var p := "/" + text + below; p != "" && p[0] == '/' && p[1..] == text + below
  {
  }

  /** Following the pointer of an item leads back to that very item exactly when no earlier sibling
      on the way has the same key. */
  lemma {:induction false} PointerRoundTrip(j: Json, path: seq<nat>, cs: bool)
    requires ValidPath(j, path) && Addressable(j)
    ensures GetItem(j, PointerTo(j, path), cs) == Some(path) <==> FirstNamed(j, path, cs)
    decreases |path|
  {
    if path == [] {
    } else {
      var i := path[0];
      assert Addressable(Children(j)[i]);
      FirstItem(j, path, cs);
      PointerRoundTrip(Children(j)[i], path[1..], cs);
      hide Addressable;
      hide GetItem;
      hide PointerTo;
      assert path == [i] + path[1..];
    }
  }

  /** With sibling keys distinct throughout, every item is the first of its name. */
  lemma {:induction false} RegularFirstNamed(j: Json, path: seq<nat>, cs: bool)
    requires ValidPath(j, path) && Regular(j, cs)
    ensures FirstNamed(j, path, cs)
    decreases |path|
  {
    if path == [] {
    } else {
      if j.Obj? {
        FindOwn(j.members, j.members[path[0]].key, path[0], cs);
      }
      RegularFirstNamed(Children(j)[path[0]], path[1..], cs);
    }
  }
}
