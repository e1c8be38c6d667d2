/** The parser takes the texts of the grammar and no others. */
module GrammarExact {
  import opened Text
  import opened Json
  import opened StringCodec
  import opened StringRfc
  import opened Parser
  import opened Grammar

  // ---- what has been parsed is a text of the grammar ----

  lemma SkippedBlank(s: string, i: nat, k: nat)
    requires k <= i <= |s| && Blank(s[k..i])
    ensures k <= SkipSpace(s, i) <= |s| && Blank(s[k..SkipSpace(s, i)])
  {
    var p := SkipSpace(s, i);
    assert forall j :: i <= j < p ==> s[j] <= ' ';
    assert s[k..p] == s[k..i] + s[i..p];
  }

  /** Two texts in a row. */
  lemma ReadsBoth(s: string, i: nat, k: nat, n: nat, rest: string)
    requires i <= k <= |s| && n == k - i && Reads(s, k, rest)
    ensures Reads(s, i, s[i..k] + rest)
  {
    ReadsSplit(s, i, s[i..k], rest);
  }

  lemma ReadsOne(s: string, i: nat, c: char, rest: string)
    requires i < |s| && s[i] == c && Reads(s, i + 1, rest)
    ensures Reads(s, i, [c] + rest)
  {
    ReadsSplit(s, i, [c], rest);
  }

  lemma {:induction false} RunChars(s: string, i: nat, n: nat)
    requires i <= |s|
    ensures var m := NumberRun(s, i, n); m <= n && forall k :: i <= k < i + m ==> NumberChar(s[k])
    decreases n
  {
    if n == 0 || i >= |s| || !NumberChar(s[i]) {
    } else {
      RunChars(s, i + 1, n - 1);
    }
  }

  lemma NumeralOf(s: string, i: nat) returns (t: string)
    requires i < |s| && (s[i] == '-' || IsDigit(s[i])) && ParseNumber(s, i).Ok?
    ensures IsNumeral(t) && Reads(s, i, t) && Ends(s, i, |t|)
    ensures ParseNumber(s, i) == Ok(Number(Strtod(t).1), i + |t|)
  {
    hide *;
    var bound: nat := 63;
    NumberAccepted(s, i);
    RunChars(s, i, bound);
    var run := s[i..i + NumberRun(s, i, bound)];
    StrtodPrefix(run);
    t := run[..Strtod(run).0];
    RunTaken(s, i, run, t);
  }

  lemma NumberAccepted(s: string, i: nat)
    requires i < |s| && ParseNumber(s, i).Ok?
    ensures var bound: nat := 63;
      var run := s[i..i + NumberRun(s, i, bound)];
      && Strtod(run).0 > 0 && Ends(s, i, Strtod(run).0)
      && ParseNumber(s, i) == Ok(Number(Strtod(run).1), i + Strtod(run).0)
  {
    hide Strtod;
    hide NumberRun;
  }

  lemma RunTaken(s: string, i: nat, run: string, t: string)
    requires i < |s| && (s[i] == '-' || IsDigit(s[i])) && i + |run| <= |s| && s[i..i + |run|] == run
    requires t != "" && t <= run && |run| <= 63 && Strtod(t).0 == |t|
    requires forall k :: i <= k < i + |run| ==> NumberChar(s[k])
    ensures IsNumeral(t) && Reads(s, i, t)
  {
    hide Strtod;
    hide NumberChar;
    assert s[i..i + |t|] == t;
    assert forall k :: 0 <= k < |t| ==> t[k] == s[i + k];
  }

  lemma QuotedOf(s: string, i: nat) returns (content: string)
    requires i < |s| && ParseString(s, i).Ok?
    ensures s[i] == '\"' && Reads(s, i, InQuotes(content))
    ensures ParseString(s, i).next == i + |InQuotes(content)|
    ensures StringOf(content) == Some(ParseString(s, i).value)
  {
    var end := ScanString(s, i + 1).value.0;
    content := s[i + 1..end];
    assert s[i..end + 1] == InQuotes(content);
    StringLocal(s, i, InQuotes(content), |content| + 2);
    hide ScanString;
    hide Decode;
    hide CString;
  }

  lemma {:induction false} FormOf(s: string, i: nat, depth: nat) returns (x: Form)
    requires i <= |s| && ParseValue(s, i, depth).Ok?
    ensures Sane(x) && Reads(s, i, Written(x)) && EndsIn(s, i, x)
    ensures ParseValue(s, i, depth) == Ok(Value(x), i + |Written(x)|)
    decreases |s| - i, 3
  {
    hide ParseArray;
    hide ParseObject;
    hide ParseNumber;
    hide ParseString;
    hide Strtod;
    hide StringOf;
    hide ItemsText;
    hide PairsText;
    if Literal(s, i, "null") {
      x := Word(Null);
    } else if Literal(s, i, "false") {
      x := Word(False);
    } else if Literal(s, i, "true") {
      x := Word(True);
    } else if s[i] == '\"' {
      var content := QuotedOf(s, i);
      x := Quoted(content);
    } else if s[i] == '-' || IsDigit(s[i]) {
      var t := NumeralOf(s, i);
      x := Numeral(t);
    } else if s[i] == '[' {
      x := ArrayOf(s, i, depth);
    } else {
      x := ObjectOf(s, i, depth);
    }
  }

  lemma ArrayAccepted(s: string, i: nat, depth: nat)
    requires i < |s| && ParseArray(s, i, depth).Ok?
    ensures var p := SkipSpace(s, i + 1);
      && i < p < |s| && (s[p] == ']' ==> ParseArray(s, i, depth) == Ok(Arr([]), p + 1))
      && (s[p] != ']' ==>
            var r := ParseElems(s, p - 1, depth + 1);
            r.Ok? && ParseArray(s, i, depth) == Ok(Arr(r.value), r.next))
  {
    hide ParseElems;
    hide SkipSpace;
  }

  lemma {:induction false} ArrayOf(s: string, i: nat, depth: nat) returns (x: Form)
    requires i < |s| && s[i] == '[' && ParseArray(s, i, depth).Ok?
    ensures !x.Numeral? && Sane(x) && Reads(s, i, Written(x))
    ensures ParseArray(s, i, depth) == Ok(Value(x), i + |Written(x)|)
    decreases |s| - i, 2
  {
    hide *;
    ArrayAccepted(s, i, depth);
    EmptyBlank(s, i + 1);
    var p := SkipSpace(s, i + 1);
    SkippedBlank(s, i + 1, i + 1);
    Containers(s[i + 1..p], [], []);
    if s[p] == ']' {
      x := NoElements(s[i + 1..p]);
      ReadsChar(s, p, "]");
      ReadsBoth(s, i + 1, p, p - i - 1, "]");
      ReadsOne(s, i, '[', s[i + 1..p] + "]");
    } else {
      var items := ItemsOf(s, i + 1, p - 1, depth + 1);
      x := Elements(items);
      Containers("", items, []);
      ReadsOne(s, i, '[', ItemsText(items));
    }
  }

  /** The two ways to accept a list of elements. */
  lemma ElemsAccepted(s: string, i: nat, depth: nat)
    requires i < |s| && ParseElems(s, i, depth).Ok?
    ensures var p := SkipSpace(s, i + 1);
      var v := ParseValue(s, p, depth);
      && i < p && v.Ok? && p < v.next <= |s|
      && var q := SkipSpace(s, v.next);
        && v.next <= q < |s|
        && (s[q] == ',' ==>
              var r := ParseElems(s, q, depth);
              r.Ok? && ParseElems(s, i, depth) == Ok([v.value] + r.value, r.next))
        && (s[q] != ',' ==> s[q] == ']' && ParseElems(s, i, depth) == Ok([v.value], q + 1))
  {
    hide ParseValue;
    hide SkipSpace;
  }

  /** A text, blanks, and what follows them. */
  lemma NextRead(s: string, p: nat, t: string, q: nat, tail: string)
    requires Reads(s, p, t) && p + |t| <= q <= |s| && Reads(s, q, tail)
    ensures var after := s[p + |t|..q];
      Reads(s, p, t + (after + tail)) && |t + (after + tail)| == q + |tail| - p
  {
    var e := p + |t|;
    ReadsBoth(s, e, q, q - e, tail);
    ReadsSplit(s, p, t, s[e..q] + tail);
  }

  /** The same with blanks in front. */
  lemma OneRead(s: string, k: nat, p: nat, t: string, q: nat, tail: string)
    requires k <= p && Reads(s, p, t) && p + |t| <= q <= |s| && Reads(s, q, tail)
    ensures var after := s[p + |t|..q];
      Reads(s, k, s[k..p] + (t + (after + tail))) && |s[k..p] + (t + (after + tail))| == q + |tail| - k
  {
    NextRead(s, p, t, q, tail);
    ReadsBoth(s, k, p, p - k, t + (s[p + |t|..q] + tail));
  }

  /** The elements with the blanks from `k` on; `i` is the byte the loop stands on before them. */
  lemma {:induction false} ItemsOf(s: string, k: nat, i: nat, depth: nat) returns (items: seq<Item>)
    requires i < |s| && k <= i + 1 && Blank(s[k..i + 1]) && ParseElems(s, i, depth).Ok?
    ensures items != [] && SaneItems(items) && Reads(s, k, ItemsText(items))
    ensures ParseElems(s, i, depth) == Ok(ItemValues(items), k + |ItemsText(items)|)
    decreases |s| - i, 1
  {
    hide *;
    ElemsAccepted(s, i, depth);
    var p := SkipSpace(s, i + 1);
    var e := ParseValue(s, p, depth).next;
    var q := SkipSpace(s, e);
    var x := FormOf(s, p, depth);
    EmptyBlank(s, e);
    SkippedBlank(s, i + 1, k);
    SkippedBlank(s, e, e);
    if s[q] == ',' {
      EmptyBlank(s, q + 1);
      var rest := ItemsOf(s, q + 1, q, depth);
      ReadsOne(s, q, ',', ItemsText(rest));
      OneRead(s, k, p, Written(x), q, "," + ItemsText(rest));
      items := [Item(s[k..p], x, s[e..q])] + rest;
      assert items[1..] == rest;
    } else {
      ReadsChar(s, q, "]");
      OneRead(s, k, p, Written(x), q, "]");
      items := [Item(s[k..p], x, s[e..q])];
      NoItems();
      assert items[1..] == [] && [Value(x)] + [] == [Value(x)];
    }
    ItemsMade(items);
  }

  lemma EmptyBlank(s: string, i: nat)
    requires i <= |s|
    ensures Blank(s[i..i])
  {
  }

  lemma ReadsChar(s: string, q: nat, t: string)
    requires q < |s| && |t| == 1 && s[q] == t[0]
    ensures Reads(s, q, t)
  {
  }

  lemma NoItems()
    ensures SaneItems([]) && ItemValues([]) == [] && SanePairs([]) && PairValues([]) == []
  {
  }

  lemma ItemsMade(items: seq<Item>)
    requires items != [] && Blank(items[0].before) && Sane(items[0].form) && Blank(items[0].after)
    requires SaneItems(items[1..])
    ensures SaneItems(items) && ItemValues(items) == [Value(items[0].form)] + ItemValues(items[1..])
    ensures ItemsText(items) == items[0].before + (Written(items[0].form) + (items[0].after
      + (if |items| == 1 then "]" else "," + ItemsText(items[1..]))))
  {
    hide Sane;
    hide Value;
    hide Written;
    hide Blank;
  }

  // ---- objects ----

  lemma ObjectAccepted(s: string, i: nat, depth: nat)
    requires i < |s| && ParseObject(s, i, depth).Ok?
    ensures var p := SkipSpace(s, i + 1);
      && i < p < |s| && (s[p] == '}' ==> ParseObject(s, i, depth) == Ok(Obj([]), p + 1))
      && (s[p] != '}' ==>
            var r := ParseMembers(s, p - 1, depth + 1);
            r.Ok? && ParseObject(s, i, depth) == Ok(Obj(r.value), r.next))
  {
    hide ParseMembers;
    hide SkipSpace;
  }

  lemma {:induction false} ObjectOf(s: string, i: nat, depth: nat) returns (x: Form)
    requires i < |s| && s[i] == '{' && ParseObject(s, i, depth).Ok?
    ensures !x.Numeral? && Sane(x) && Reads(s, i, Written(x))
    ensures ParseObject(s, i, depth) == Ok(Value(x), i + |Written(x)|)
    decreases |s| - i, 2
  {
    hide *;
    ObjectAccepted(s, i, depth);
    EmptyBlank(s, i + 1);
    var p := SkipSpace(s, i + 1);
    SkippedBlank(s, i + 1, i + 1);
    Containers(s[i + 1..p], [], []);
    if s[p] == '}' {
      x := NoMembers(s[i + 1..p]);
      ReadsChar(s, p, "}");
      ReadsBoth(s, i + 1, p, p - i - 1, "}");
      ReadsOne(s, i, '{', s[i + 1..p] + "}");
    } else {
      var pairs := PairsOf(s, i + 1, p - 1, depth + 1);
      x := Members(pairs);
      Containers("", [], pairs);
      ReadsOne(s, i, '{', PairsText(pairs));
    }
  }

  lemma MembersAccepted(s: string, i: nat, depth: nat)
    requires i < |s| && ParseMembers(s, i, depth).Ok?
    ensures var m := ParseMember(s, i, depth);
      && m.Ok? && i < m.next <= |s|
      && var q := SkipSpace(s, m.next);
        && m.next <= q < |s|
        && (s[q] == ',' ==>
              var r := ParseMembers(s, q, depth);
              r.Ok? && ParseMembers(s, i, depth) == Ok([m.value] + r.value, r.next))
        && (s[q] != ',' ==> s[q] == '}' && ParseMembers(s, i, depth) == Ok([m.value], q + 1))
  {
    hide ParseMember;
    hide SkipSpace;
  }

  lemma MemberAccepted(s: string, i: nat, depth: nat)
    requires i < |s| && ParseMember(s, i, depth).Ok?
    ensures var p := SkipSpace(s, i + 1);
      && i < p < |s| && ParseString(s, p).Ok? && p < ParseString(s, p).next <= |s|
      && var c := SkipSpace(s, ParseString(s, p).next);
        && ParseString(s, p).next <= c < |s| && s[c] == ':'
        && var v := SkipSpace(s, c + 1);
          && c < v <= |s| && ParseValue(s, v, depth).Ok? && v < ParseValue(s, v, depth).next <= |s|
          && ParseMember(s, i, depth)
            == Ok(Member(ParseString(s, p).value, ParseValue(s, v, depth).value), ParseValue(s, v, depth).next)
  {
    hide ParseValue;
    hide ParseString;
    hide SkipSpace;
  }

  /** One name and value with the blanks from `k` on, up to the last byte of the value. */
  lemma {:induction false} PairOf(s: string, k: nat, i: nat, depth: nat) returns (p: Binding)
    requires i < |s| && k <= i + 1 && Blank(s[k..i + 1]) && ParseMember(s, i, depth).Ok?
    ensures p.after == "" && SanePairs([p]) && Reads(s, k, UpToValue(p))
    ensures ParseMember(s, i, depth) == Ok(Member(StringOf(p.name).value, Value(p.form)), k + |UpToValue(p)|)
    decreases |s| - i, 0
  {
    hide *;
    MemberAccepted(s, i, depth);
    var n := SkipSpace(s, i + 1);
    var e := ParseString(s, n).next;
    var c := SkipSpace(s, e);
    var v := SkipSpace(s, c + 1);
    SkippedBlank(s, i + 1, k);
    EmptyBlank(s, e);
    SkippedBlank(s, e, e);
    EmptyBlank(s, c + 1);
    SkippedBlank(s, c + 1, c + 1);
    var name := QuotedOf(s, n);
    var x := FormOf(s, v, depth);
    p := Binding(s[k..n], name, s[e..c], s[c + 1..v], x, "");
    ReadsBoth(s, c + 1, v, v - c - 1, Written(x));
    ReadsOne(s, c, ':', p.ahead + Written(x));
    OneRead(s, k, n, InQuotes(name), c, ":" + (p.ahead + Written(x)));
    PairMade(p);
    PairText(p);
  }

  ghost function UpToValue(p: Binding): string {
    p.before + (InQuotes(p.name) + (p.behind + (":" + (p.ahead + Written(p.form)))))
  }

  lemma PairMade(p: Binding)
    requires Blank(p.before) && StringOf(p.name).Some? && Blank(p.behind) && Blank(p.ahead) && Sane(p.form)
    requires p.after == ""
    ensures SanePairs([p])
  {
    assert [p][1..] == [];
    hide Sane;
    hide StringOf;
  }

  lemma {:induction false} PairsOf(s: string, k: nat, i: nat, depth: nat) returns (pairs: seq<Binding>)
    requires i < |s| && k <= i + 1 && Blank(s[k..i + 1]) && ParseMembers(s, i, depth).Ok?
    ensures pairs != [] && SanePairs(pairs) && Reads(s, k, PairsText(pairs))
    ensures ParseMembers(s, i, depth) == Ok(PairValues(pairs), k + |PairsText(pairs)|)
    decreases |s| - i, 1
  {
    hide *;
    MembersAccepted(s, i, depth);
    var e := ParseMember(s, i, depth).next;
    var q := SkipSpace(s, e);
    var p := PairOf(s, k, i, depth);
    PairSane(p);
    EmptyBlank(s, e);
    SkippedBlank(s, e, e);
    if s[q] == ',' {
      EmptyBlank(s, q + 1);
      var rest := PairsOf(s, q + 1, q, depth);
      ReadsOne(s, q, ',', PairsText(rest));
      NextRead(s, k, UpToValue(p), q, "," + PairsText(rest));
      pairs := [p.(after := s[e..q])] + rest;
      assert pairs[1..] == rest;
    } else {
      ReadsChar(s, q, "}");
      NextRead(s, k, UpToValue(p), q, "}");
      pairs := [p.(after := s[e..q])];
      NoItems();
      var m := Member(StringOf(p.name).value, Value(p.form));
      assert pairs[1..] == [] && [m] + [] == [m];
    }
    PairsSane(pairs, p);
    PairsWritten(pairs, p);
  }

  lemma PairSane(p: Binding)
    requires SanePairs([p])
    ensures StringOf(p.name).Some? && Sane(p.form)
  {
    hide Sane;
    hide StringOf;
  }

  lemma PairsSane(pairs: seq<Binding>, p: Binding)
    requires pairs != [] && pairs[0] == p.(after := pairs[0].after) && Blank(pairs[0].after)
    requires SanePairs([p]) && SanePairs(pairs[1..]) && StringOf(p.name).Some? && Sane(p.form)
    ensures SanePairs(pairs)
    ensures PairValues(pairs) == [Member(StringOf(p.name).value, Value(p.form))] + PairValues(pairs[1..])
  {
    hide Sane;
    hide Value;
    hide Blank;
    hide StringOf;
  }

  lemma PairsWritten(pairs: seq<Binding>, p: Binding)
    requires pairs != [] && pairs[0] == p.(after := pairs[0].after)
    ensures var tail := if |pairs| == 1 then "}" else "," + PairsText(pairs[1..]);
      PairsText(pairs) == UpToValue(p) + (pairs[0].after + tail)
  {
    var tail := if |pairs| == 1 then "}" else "," + PairsText(pairs[1..]);
    assert PairsText(pairs) == p.before + PairsBody(pairs);
    assert PairsBody(pairs)
      == InQuotes(p.name) + (p.behind + (":" + (p.ahead + (Written(p.form) + (pairs[0].after + tail)))));
    Regroup(p.before, InQuotes(p.name), p.behind, p.ahead, Written(p.form), pairs[0].after + tail);
    hide *;
    assert UpToValue(p) == p.before + (InQuotes(p.name) + (p.behind + (":" + (p.ahead + Written(p.form))))) by {
      PairText(p);
    }
  }

  lemma PairText(p: Binding)
    ensures UpToValue(p) == p.before + (InQuotes(p.name) + (p.behind + (":" + (p.ahead + Written(p.form)))))
  {
  }

  lemma Regroup(a: string, b: string, c: string, d: string, e: string, f: string)
    ensures (a + (b + (c + (":" + (d + e))))) + f == a + (b + (c + (":" + (d + (e + f)))))
  {
  }

  // ---- one value ----

  /** `x` stands at `i`, where `depth` containers are open. */
  ghost predicate Stands(s: string, i: nat, x: Form, depth: nat, v: Json, next: nat) {
    && Sane(x) && Reads(s, i, Written(x)) && EndsIn(s, i, x) && Fits(Nesting(Value(x)), depth)
    && v == Value(x) && next == i + |Written(x)|
  }

  /** The parser takes exactly the texts of the grammar that are not nested too deep. */
  lemma ValuesExactly(s: string, i: nat, depth: nat, v: Json, next: nat)
    requires i <= |s| && depth <= NESTING_LIMIT
    ensures ParseValue(s, i, depth) == Ok(v, next) <==> exists x :: Stands(s, i, x, depth, v, next)
  {
    hide *;
    if ParseValue(s, i, depth) == Ok(v, next) {
      var x := FormOf(s, i, depth);
      ValueNesting(s, i, depth);
      ItStands(s, i, x, depth);
      assert Stands(s, i, x, depth, v, next);
    }
    if exists x :: Stands(s, i, x, depth, v, next) {
      var x :| Stands(s, i, x, depth, v, next);
      StandsParsed(s, i, x, depth, v, next);
    }
  }

  lemma ItStands(s: string, i: nat, x: Form, depth: nat)
    requires Sane(x) && Reads(s, i, Written(x)) && EndsIn(s, i, x) && depth + Nesting(Value(x)) <= NESTING_LIMIT
    ensures Stands(s, i, x, depth, Value(x), i + |Written(x)|)
  {
    hide Sane;
    hide Written;
    hide Value;
    hide Nesting;
    hide EndsIn;
  }

  lemma StandsParsed(s: string, i: nat, x: Form, depth: nat, v: Json, next: nat)
    requires Stands(s, i, x, depth, v, next) && i <= |s| && depth <= NESTING_LIMIT
    ensures ParseValue(s, i, depth) == Ok(v, next)
  {
    hide Sane;
    hide Written;
    hide Value;
    hide Nesting;
    hide EndsIn;
    hide ParseValue;
    ParsesForm(s, i, x, depth);
  }

  // ---- the entry point ----

  /** Where the text begins: behind a byte order mark, if more than one byte follows it. */
  function Start(s: string): nat {
    if |s| > 4 && s[0] as int == 0xEF && s[1] as int == 0xBB && s[2] as int == 0xBF then 3 else 0
  }

  /** The value `x` at `i` after blanks. A text that must be terminated goes on with blanks up to its last
      byte, which is the terminator. */
  ghost predicate Whole(s: string, requireNul: bool, i: nat, x: Form, v: Json, next: nat) {
    && Start(s) <= i <= |s| && Blank(s[Start(s)..i])
    && if requireNul then
         var e := i + |Written(x)|;
         && Stands(s, i, x, 0, v, e) && e <= next == |s| - 1 && Blank(s[e..next]) && s[next] == NUL
       else Stands(s, i, x, 0, v, next)
  }

  lemma StartsThere(s: string)
    ensures SkipBom(s) == Start(s)
  {
    if |s| > 4 {
      assert s[..3][0] == s[0] && s[..3][1] == s[1] && s[..3][2] == s[2];
      assert BOM[0] as int == 0xEF && BOM[1] as int == 0xBB && BOM[2] as int == 0xBF;
      if Start(s) == 3 {
        assert s[..3] == BOM;
      }
    }
  }

  /** `cJSON_ParseWithLengthOpts` takes exactly these texts, and gives their value and their end. */
  lemma ParsesExactly(s: string, requireNul: bool, v: Json, next: nat)
    ensures Parse(s, requireNul) == Ok(v, next) <==> exists i, x :: Whole(s, requireNul, i, x, v, next)
  {
    hide *;
    if Parse(s, requireNul) == Ok(v, next) {
      var i, x := TextOf(s, requireNul);
      assert Whole(s, requireNul, i, x, v, next);
    }
    if exists i, x :: Whole(s, requireNul, i, x, v, next) {
      var i, x :| Whole(s, requireNul, i, x, v, next);
      TextParsed(s, requireNul, i, x, v, next);
    }
  }

  lemma TextOf(s: string, requireNul: bool) returns (i: nat, x: Form)
    requires Parse(s, requireNul).Ok?
    ensures Whole(s, requireNul, i, x, Parse(s, requireNul).value, Parse(s, requireNul).next)
  {
    hide ParseValue;
    hide Sane;
    hide Written;
    hide Value;
    hide Stands;
    hide SkipBom;
    hide Start;
    StartsThere(s);
    i := SkipSpace(s, SkipBom(s));
    SkippedBlank(s, SkipBom(s), SkipBom(s));
    var e := ParseValue(s, i, 0).next;
    x := FormOf(s, i, 0);
    ValueNesting(s, i, 0);
    ItStands(s, i, x, 0);
    if requireNul {
      SkippedBlank(s, e, e);
      EndsThere(s, e);
    }
  }

  /** If the byte that stops the blanks is a terminator, it is the last one of the buffer. */
  lemma EndsThere(s: string, e: nat)
    requires e <= |s| && SkipSpace(s, e) < |s| && s[SkipSpace(s, e)] == NUL
    ensures SkipSpace(s, e) == |s| - 1
  {
  }

  lemma TextParsed(s: string, requireNul: bool, i: nat, x: Form, v: Json, next: nat)
    requires Whole(s, requireNul, i, x, v, next)
    ensures Parse(s, requireNul) == Ok(v, next)
  {
    hide ParseValue;
    hide Written;
    hide SkipBom;
    hide Start;
    StartsThere(s);
    VisibleThere(s, i, x);
    BlanksSkipped(s, SkipBom(s), i);
    var e := if requireNul then i + |Written(x)| else next;
    StandsParsed(s, i, x, 0, v, e);
    hide Stands;
    if requireNul {
      BlanksToEnd(s, e);
    }
  }

  lemma VisibleThere(s: string, i: nat, x: Form)
    requires Sane(x) && Reads(s, i, Written(x))
    ensures i < |s| && s[i] > ' '
  {
    FormHead(x);
    ReadsAt(s, i, Written(x), 0);
  }

  lemma BlanksSkipped(s: string, b: nat, i: nat)
    requires b <= i < |s| && s[i] > ' ' && Blank(s[b..i])
    ensures SkipSpace(s, b) == i
  {
    forall k | b <= k < i ensures s[k] <= ' ' {
      assert s[b..i][k - b] == s[k];
    }
    FirstVisibleAt(s, b, i - b);
  }

  lemma BlanksToEnd(s: string, e: nat)
    requires e < |s| && Blank(s[e..|s| - 1]) && s[|s| - 1] == NUL
    ensures SkipSpace(s, e) == |s| - 1
  {
    forall k | e <= k < |s| ensures s[k] <= ' ' {
      assert k < |s| - 1 ==> s[e..|s| - 1][k - e] == s[k];
    }
  }
}
