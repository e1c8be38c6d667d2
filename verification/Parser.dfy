/** The recursive-descent parser as functions: what it computes on a byte sequence from an offset on. */
module Parser {
  import opened Text
  import opened Json
  import opened StringCodec

  const NESTING_LIMIT: nat := 1000

  /** A value and the offset behind it, or the offset where parsing stopped. */
  datatype Parsed<+T> = Ok(value: T, next: nat) | Err(at: nat)

  // ---- whitespace ----

  function FirstVisible(s: string, i: nat): (r: nat)
    requires i <= |s|
    ensures i <= r <= |s| && (r < |s| ==> s[r] > ' ')
    ensures forall k :: i <= k < r ==> s[k] <= ' '
    decreases |s| - i
  {
    if i < |s| && s[i] <= ' ' then FirstVisible(s, i + 1) else i
  }

  /** `buffer_skip_whitespace`: it stops at the end, but then steps back onto the last byte. */
  function SkipSpace(s: string, i: nat): (r: nat)
    requires i <= |s|
    ensures i <= r <= |s| && (i < |s| ==> r < |s|)
  {
    if i == |s| then i
    else
      var e := FirstVisible(s, i);
      if e == |s| then e - 1 else e
  }

  // ---- numbers ----

  predicate IsDigit(c: char) {
    '0' <= c <= '9'
  }

  predicate NumberChar(c: char) {
    IsDigit(c) || c == '+' || c == '-' || c == 'e' || c == 'E' || c == '.'
  }

  /** How many bytes, at most `n`, `parse_number` copies for `strtod`. */
  function NumberRun(s: string, i: nat, n: nat): (r: nat)
    ensures i <= |s| ==> i + r <= |s|
    decreases n
  {
    if n == 0 || i >= |s| || !NumberChar(s[i]) then 0 else 1 + NumberRun(s, i + 1, n - 1)
  }

  function DigitRun(t: string, i: nat): (r: nat)
    requires i <= |t|
    ensures i <= r <= |t|
    decreases |t| - i
  {
    if i < |t| && IsDigit(t[i]) then DigitRun(t, i + 1) else i
  }

  /** The decimal number of the bytes from `i` to `j`. */
  function DigitsValue(t: string, i: nat, j: nat): int
    requires j <= |t|
    decreases j
  {
    if i >= j then 0 else 10 * DigitsValue(t, i, j - 1) + (t[j - 1] as int - '0' as int)
  }

  function Pow10(n: int): real
    decreases if n < 0 then -n else n
  {
    if n == 0 then 1.0 else if n > 0 then 10.0 * Pow10(n - 1) else Pow10(n + 1) / 10.0
  }

  /** `strtod` on a text of number bytes: the length used (0 for none) and the value, unrounded. */
  function Strtod(t: string): (r: (nat, real))
    ensures r.0 <= |t|
  {
    var i := if t != "" && (t[0] == '+' || t[0] == '-') then 1 else 0;
    var j := DigitRun(t, i);
    var k := if j < |t| && t[j] == '.' then DigitRun(t, j + 1) else j;
    var places := if k > j then k - j - 1 else 0;
    if j == i && places == 0 then (0, 0.0)
    else
      var (end, exponent) := Exponent(t, k);
      (end, Scaled(t, i, j, k, exponent))
  }

  /** The number of the digits before and behind the point, with that exponent. */
  function Scaled(t: string, i: nat, j: nat, k: nat, exponent: int): real
    requires t != "" && j <= |t| && k <= |t|
  {
    var places := if k > j then k - j - 1 else 0;
    var mantissa := DigitsValue(t, i, j) as real * Pow10(places) + DigitsValue(t, j + 1, k) as real;
    var magnitude := mantissa * Pow10(exponent - places);
    if t[0] == '-' then -magnitude else magnitude
  }

  function Exponent(t: string, k: nat): (r: (nat, int))
    requires k <= |t|
    ensures k <= r.0 <= |t|
  {
    if k < |t| && (t[k] == 'e' || t[k] == 'E') then
      var p := if k + 1 < |t| && (t[k + 1] == '+' || t[k + 1] == '-') then k + 2 else k + 1;
      var q := DigitRun(t, p);
      if q == p then (k, 0)
      else (q, if t[k + 1] == '-' then -DigitsValue(t, p, q) else DigitsValue(t, p, q))
    else (k, 0)
  }

  function ParseNumber(s: string, i: nat): (r: Parsed<Json>)
    requires i < |s|
    ensures r.Ok? ==> i < r.next <= |s|
    ensures r.Err? ==> r.at <= |s|
  {
    var (n, d) := Strtod(s[i..i + NumberRun(s, i, 63)]);
    if n == 0 then Err(i) else Ok(Number(d), i + n)
  }

  // ---- strings ----

  /** The C string in a byte buffer: up to the first terminator. */
  function CString(t: string): string {
    if t == "" || t[0] == NUL then "" else [t[0]] + CString(t[1..])
  }

  function ParseString(s: string, i: nat): (r: Parsed<string>)
    requires i < |s|
    ensures r.Ok? ==> i < r.next <= |s|
    ensures r.Err? ==> r.at <= |s|
  {
    if s[i] != '\"' then Err(i + 1)
    else
      match ScanString(s, i + 1)
      case None => Err(i + 1)
      case Some((end, _)) =>
        DecodeStops(s, i + 1, end);
        match Decode(s, i + 1, end)
        case Refused(at) => Err(at)
        case Bytes(text) => Ok(CString(text), end + 1)
  }

  lemma {:induction false} DecodeStops(s: string, i: nat, end: nat)
    requires end < |s|
    ensures Decode(s, i, end).Refused? ==> Decode(s, i, end).at < end
    decreases |s| - i
  {
    if i < end {
      if s[i] != '\\' {
        DecodeStops(s, i + 1, end);
      } else if s[i + 1] == 'u' {
        if Utf16Literal(s, i, end).Some? {
          DecodeStops(s, i + Utf16Literal(s, i, end).value.0, end);
        }
      } else {
        DecodeStops(s, i + 2, end);
      }
    }
  }

  // ---- values ----

  predicate Literal(s: string, i: nat, t: string) {
    i + |t| <= |s| && s[i..i + |t|] == t
  }

  /** How deeply arrays and objects are nested in a tree. */
  ghost function Nesting(j: Json): nat {
    match j
    case Arr(es) => 1 + NestingElems(es)
    case Obj(ms) => 1 + NestingMembers(ms)
    case _ => 0
  }

  ghost function NestingElems(es: seq<Json>): nat {
    if es == [] then 0 else Max(Nesting(es[0]), NestingElems(es[1..]))
  }

  ghost function NestingMembers(ms: seq<Member<Json>>): nat {
    if ms == [] then 0 else Max(Nesting(ms[0].value), NestingMembers(ms[1..]))
  }

  function Max(a: nat, b: nat): nat {
    if a < b then b else a
  }

  function ParseValue(s: string, i: nat, depth: nat): (r: Parsed<Json>)
    requires i <= |s|
    ensures r.Ok? ==> i < r.next <= |s|
    ensures r.Err? ==> r.at <= |s|
    decreases |s| - i, 3
  {
    if Literal(s, i, "null") then Ok(Null, i + 4)
    else if Literal(s, i, "false") then Ok(False, i + 5)
    else if Literal(s, i, "true") then Ok(True, i + 4)
    else if i == |s| then Err(i)
    else if s[i] == '\"' then
      var r := ParseString(s, i);
      if r.Ok? then Ok(Str(r.value), r.next) else Err(r.at)
    else if s[i] == '-' || IsDigit(s[i]) then ParseNumber(s, i)
    else if s[i] == '[' then ParseArray(s, i, depth)
    else if s[i] == '{' then ParseObject(s, i, depth)
    else Err(i)
  }

  function ParseArray(s: string, i: nat, depth: nat): (r: Parsed<Json>)
    requires i < |s|
    ensures r.Ok? ==> i < r.next <= |s|
    ensures r.Err? ==> r.at <= |s|
    decreases |s| - i, 2
  {
    if depth >= NESTING_LIMIT then Err(i)
    else
      var p := SkipSpace(s, i + 1);
      if p == |s| then Err(p - 1)
      else if s[p] == ']' then Ok(Arr([]), p + 1)
      else
        var r := ParseElems(s, p - 1, depth + 1);
        if r.Ok? then Ok(Arr(r.value), r.next) else Err(r.at)
  }

  /** The elements, with `i` on the byte before the next one. */
  function ParseElems(s: string, i: nat, depth: nat): (r: Parsed<seq<Json>>)
    requires i < |s|
    ensures r.Ok? ==> i < r.next <= |s| && r.value != []
    ensures r.Err? ==> r.at <= |s|
    decreases |s| - i, 1
  {
    var v := ParseValue(s, SkipSpace(s, i + 1), depth);
    if v.Err? then Err(v.at)
    else
      var p := SkipSpace(s, v.next);
      if p < |s| && s[p] == ',' then
        var rest := ParseElems(s, p, depth);
        if rest.Ok? then Ok([v.value] + rest.value, rest.next) else Err(rest.at)
      else if p < |s| && s[p] == ']' then Ok([v.value], p + 1)
      else Err(p)
  }

  function ParseObject(s: string, i: nat, depth: nat): (r: Parsed<Json>)
    requires i < |s|
    ensures r.Ok? ==> i < r.next <= |s|
    ensures r.Err? ==> r.at <= |s|
    decreases |s| - i, 2
  {
    if depth >= NESTING_LIMIT then Err(i)
    else
      var p := SkipSpace(s, i + 1);
      if p == |s| then Err(p - 1)
      else if s[p] == '}' then Ok(Obj([]), p + 1)
      else
        var r := ParseMembers(s, p - 1, depth + 1);
        if r.Ok? then Ok(Obj(r.value), r.next) else Err(r.at)
  }

  /** The members, with `i` on the byte before the next one. */
  function ParseMembers(s: string, i: nat, depth: nat): (r: Parsed<seq<Member<Json>>>)
    requires i < |s|
    ensures r.Ok? ==> i < r.next <= |s| && r.value != []
    ensures r.Err? ==> r.at <= |s|
    decreases |s| - i, 1
  {
    var m := ParseMember(s, i, depth);
    if m.Err? then Err(m.at)
    else
      var p := SkipSpace(s, m.next);
      if p < |s| && s[p] == ',' then
        var rest := ParseMembers(s, p, depth);
        if rest.Ok? then Ok([m.value] + rest.value, rest.next) else Err(rest.at)
      else if p < |s| && s[p] == '}' then Ok([m.value], p + 1)
      else Err(p)
  }

  /** One name, colon and value. */
  function ParseMember(s: string, i: nat, depth: nat): (r: Parsed<Member<Json>>)
    requires i < |s|
    ensures r.Ok? ==> i < r.next <= |s|
    ensures r.Err? ==> r.at <= |s|
    decreases |s| - i, 0
  {
    if i + 1 == |s| then Err(i)
    else
      var k := ParseString(s, SkipSpace(s, i + 1));
      if k.Err? then Err(k.at)
      else
        var c := SkipSpace(s, k.next);
        if c == |s| || s[c] != ':' then Err(c)
        else
          var v := ParseValue(s, SkipSpace(s, c + 1), depth);
          if v.Ok? then Ok(Member(k.value, v.value), v.next) else Err(v.at)
  }

  // ---- the public entry point ----

  const BOM: string := [0xEF as char, 0xBB as char, 0xBF as char]

  function SkipBom(s: string): (i: nat)
    ensures i <= |s|
  {
    if |s| > 4 && s[..3] == BOM then 3 else 0
  }

  /** The error position that is reported: inside the buffer. */
  function Clamp(s: string, at: nat): nat {
    if at < |s| then at else if |s| > 0 then |s| - 1 else 0
  }

  /** `cJSON_ParseWithLengthOpts`. */
  function Parse(s: string, requireNul: bool): (r: Parsed<Json>)
    ensures r.Err? && s != "" ==> r.at < |s|
    ensures r.Ok? ==> 0 < r.next <= |s|
  {
    if s == "" then Err(0)
    else
      var r := ParseValue(s, SkipSpace(s, SkipBom(s)), 0);
      if r.Err? then Err(Clamp(s, r.at))
      else if !requireNul then r
      else
        var p := SkipSpace(s, r.next);
        if p == |s| || s[p] != NUL then Err(Clamp(s, p)) else Ok(r.value, p)
  }

  // ---- nesting of what has been parsed ----

  /** What is parsed below `depth` open containers keeps the whole within the limit. */
  lemma {:induction false} ValueNesting(s: string, i: nat, depth: nat)
    requires i <= |s| && depth <= NESTING_LIMIT
    ensures var r := ParseValue(s, i, depth); r.Ok? ==> depth + Nesting(r.value) <= NESTING_LIMIT
    decreases |s| - i, 3
  {
    hide Literal;
    hide ParseString;
    hide ParseArray;
    hide ParseObject;
    if i == |s| {
    } else {
      if s[i] == '[' {
        ArrayNesting(s, i, depth);
      } else if s[i] == '{' {
        ObjectNesting(s, i, depth);
      } else if s[i] == '-' || IsDigit(s[i]) {
        NumberNesting(s, i);
      }
      hide ParseNumber;
    }
  }

  lemma NumberNesting(s: string, i: nat)
    requires i < |s|
    ensures var r := ParseNumber(s, i); r.Ok? ==> Nesting(r.value) == 0
  {
    hide Strtod;
  }

  lemma {:induction false} ArrayNesting(s: string, i: nat, depth: nat)
    requires i < |s| && depth <= NESTING_LIMIT
    ensures var r := ParseArray(s, i, depth); r.Ok? ==> depth + Nesting(r.value) <= NESTING_LIMIT
    decreases |s| - i, 2
  {
    hide ParseElems;
    hide SkipSpace;
    var p := SkipSpace(s, i + 1);
    if depth < NESTING_LIMIT && p < |s| {
      ElemsNesting(s, p - 1, depth + 1);
    }
  }

  lemma {:induction false} ObjectNesting(s: string, i: nat, depth: nat)
    requires i < |s| && depth <= NESTING_LIMIT
    ensures var r := ParseObject(s, i, depth); r.Ok? ==> depth + Nesting(r.value) <= NESTING_LIMIT
    decreases |s| - i, 2
  {
    hide ParseMembers;
    hide SkipSpace;
    var p := SkipSpace(s, i + 1);
    if depth < NESTING_LIMIT && p < |s| {
      MembersNesting(s, p - 1, depth + 1);
    }
  }

  lemma {:induction false} ElemsNesting(s: string, i: nat, depth: nat)
    requires i < |s| && depth <= NESTING_LIMIT
    ensures var r := ParseElems(s, i, depth); r.Ok? ==> depth + NestingElems(r.value) <= NESTING_LIMIT
    decreases |s| - i, 1
  {
    var v := ParseValue(s, SkipSpace(s, i + 1), depth);
    ValueNesting(s, SkipSpace(s, i + 1), depth);
    if v.Ok? {
      var p := SkipSpace(s, v.next);
      if p < |s| && s[p] == ',' {
        ElemsNesting(s, p, depth);
        NestingCons(v.value, []);
        if ParseElems(s, p, depth).Ok? {
          NestingCons(v.value, ParseElems(s, p, depth).value);
        }
      } else {
        NestingCons(v.value, []);
        assert [v.value] + [] == [v.value];
      }
    }
  }

  lemma NestingCons(j: Json, es: seq<Json>)
    ensures NestingElems([j] + es) == Max(Nesting(j), NestingElems(es))
  {
    assert ([j] + es)[1..] == es;
  }

  lemma NestingMemberCons(m: Member<Json>, ms: seq<Member<Json>>)
    ensures NestingMembers([m] + ms) == Max(Nesting(m.value), NestingMembers(ms))
  {
    assert ([m] + ms)[1..] == ms;
  }

  lemma {:induction false} MembersNesting(s: string, i: nat, depth: nat)
    requires i < |s| && depth <= NESTING_LIMIT
    ensures var r := ParseMembers(s, i, depth); r.Ok? ==> depth + NestingMembers(r.value) <= NESTING_LIMIT
    decreases |s| - i, 1
  {
    var m := ParseMember(s, i, depth);
    MemberNesting(s, i, depth);
    if m.Ok? {
      var p := SkipSpace(s, m.next);
      if p < |s| && s[p] == ',' {
        MembersNesting(s, p, depth);
        if ParseMembers(s, p, depth).Ok? {
          NestingMemberCons(m.value, ParseMembers(s, p, depth).value);
        }
      } else {
        NestingMemberCons(m.value, []);
        assert [m.value] + [] == [m.value];
      }
    }
  }

  lemma {:induction false} MemberNesting(s: string, i: nat, depth: nat)
    requires i < |s| && depth <= NESTING_LIMIT
    ensures var r := ParseMember(s, i, depth); r.Ok? ==> depth + Nesting(r.value.value) <= NESTING_LIMIT
    decreases |s| - i, 0
  {
    if i + 1 < |s| {
      var k := ParseString(s, SkipSpace(s, i + 1));
      if k.Ok? {
        var c := SkipSpace(s, k.next);
        if c < |s| {
          ValueNesting(s, SkipSpace(s, c + 1), depth);
        }
      }
    }
  }
}
