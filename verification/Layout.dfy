/** The layout of printed text, told by a scanner that counts brackets. */
module Layout {
  import opened Text
  import opened Json
  import opened Pointer
  import opened Rendering
  import opened Grammar
  import opened ParseRoundTrip

  // ---- the scanner ----

  /** What follows the closing quote, from inside a string. */
  ghost function AfterString(t: string): (r: string)
    ensures |r| <= |t|
  {
    if t == "" then ""
    else if t[0] == '\"' then t[1..]
    else if t[0] == '\\' && |t| > 1 then AfterString(t[2..])
    else AfterString(t[1..])
  }

  /** How many tab characters a text starts with. */
  ghost function TabRun(t: string): (n: nat)
    ensures n <= |t|
  {
    if t != "" && t[0] == '\t' then 1 + TabRun(t[1..]) else 0
  }

  ghost predicate Visible(c: char) {
    c > ' '
  }

  /** Formatted text, from outside a string; `open` holds the brackets that are open, the innermost last.
      A line break is followed by as many tabs as brackets are open, one less in front of a closing brace,
      and a closing brace stands nowhere else. There is one behind an opening brace and behind a comma
      between members. The only other blanks are one tab behind a colon and one blank behind a comma
      between elements. */
  ghost predicate LaidOut(t: string, open: string)
    decreases |t|
  {
    t == "" || (
      var r := t[1..];
      match t[0]
      case '\"' => LaidOut(AfterString(r), open)
      case '[' => LaidOut(r, open + "[")
      case ']' => Innermost(open, '[') && LaidOut(r, open[..|open| - 1])
      case '{' => ByteAt(r, 0) == '\n' && LaidOut(r, open + "{")
      case '}' => false
      case '\n' =>
        var n := TabRun(r);
        if ByteAt(r, n) == '}' then
          n < |r| && n + 1 == |open| && Innermost(open, '{') && LaidOut(r[n + 1..], open[..|open| - 1])
        else n == |open| && LaidOut(r[n..], open)
      case ':' => ByteAt(r, 0) == '\t' && Visible(ByteAt(r, 1)) && LaidOut(r[1..], open)
      case ',' =>
        if Innermost(open, '[') then ByteAt(r, 0) == ' ' && Visible(ByteAt(r, 1)) && LaidOut(r[1..], open)
        else ByteAt(r, 0) == '\n' && LaidOut(r, open)
      case c => Visible(c) && LaidOut(r, open))
  }

  ghost predicate Innermost(open: string, c: char) {
    open != "" && open[|open| - 1] == c
  }

  /** Unformatted text, from outside a string: no blanks there at all. */
  ghost predicate Compact(t: string)
    decreases |t|
  {
    t == "" || if t[0] == '\"' then Compact(AfterString(t[1..])) else Visible(t[0]) && Compact(t[1..])
  }

  // ---- strings, and text without a meaning to the scanner ----

  lemma {:induction false} AfterEscape(s: string, rest: string)
    ensures AfterString(Escape(s) + ("\"" + rest)) == rest
  {
    if s == "" {
      assert Escape(s) + ("\"" + rest) == "\"" + rest;
    } else {
      var more := Escape(s[1..]) + ("\"" + rest);
      AfterEscape(s[1..], rest);
      AfterEscapeChar(s[0], more);
      hide AfterString;
      hide EscapeChar;
      assert (EscapeChar(s[0]) + Escape(s[1..])) + ("\"" + rest) == EscapeChar(s[0]) + more;
    }
  }

  lemma AfterEscapeChar(c: char, rest: string)
    ensures AfterString(EscapeChar(c) + rest) == AfterString(rest)
  {
    var t := EscapeChar(c) + rest;
    if |EscapeChar(c)| == 1 {
      assert t[1..] == rest;
    } else if |EscapeChar(c)| == 2 {
      assert t[2..] == rest;
    } else {
      AfterPlain(t, 2, 6);
      assert t[6..] == rest;
    }
  }

  lemma {:induction false} AfterPlain(t: string, i: nat, n: nat)
    requires i <= n <= |t| && forall k :: i <= k < n ==> t[k] != '\"' && t[k] != '\\'
    ensures AfterString(t[i..]) == AfterString(t[n..])
    decreases n - i
  {
    if i == n {
    } else {
      assert t[i..][1..] == t[i + 1..];
      AfterPlain(t, i + 1, n);
    }
  }

  lemma AfterQuote(s: string, rest: string)
    ensures var t := Quote(s) + rest; t != "" && t[0] == '\"' && AfterString(t[1..]) == rest
  {
    AfterEscape(s, rest);
    hide Escape;
    hide AfterString;
    assert (Quote(s) + rest)[1..] == Escape(s) + ("\"" + rest);
  }

  predicate Inert(t: string) {
    forall k :: 0 <= k < |t| ==> t[k] > ' ' && t[k] !in {'\"', '[', ']', '{', '}', ':', ','}
  }

  lemma {:induction false} InertLaid(t: string, rest: string, open: string)
    requires Inert(t)
    ensures LaidOut(t + rest, open) <==> LaidOut(rest, open)
    ensures Compact(t + rest) <==> Compact(rest)
    decreases |t|
  {
    if t == "" {
      assert t + rest == rest;
    } else {
      assert (t + rest)[1..] == t[1..] + rest;
      InertLaid(t[1..], rest, open);
    }
  }

  lemma WordLaid(j: Json, format: bool, d: nat, rest: string, open: string)
    requires Printable(j) && !j.Str? && !j.Arr? && !j.Obj?
    ensures LaidOut(Render(j, format, d) + rest, open) <==> LaidOut(rest, open)
    ensures Compact(Render(j, format, d) + rest) <==> Compact(rest)
  {
    if j.Number? {
      DigitsInRange(if ValueInt(j.d) < 0 then -ValueInt(j.d) else ValueInt(j.d));
    }
    InertLaid(Render(j, format, d), rest, open);
    hide LaidOut;
    hide Compact;
  }

  // ---- formatted text ----

  lemma {:induction false} TabsRun(n: nat, rest: string)
    requires ByteAt(rest, 0) != '\t'
    ensures TabRun(Tabs(n) + rest) == n
  {
    var t := Tabs(n) + rest;
    if n == 0 {
      assert t == rest;
    } else {
      assert t[0] == '\t' && t[1..] == Tabs(n - 1) + rest;
      TabsRun(n - 1, rest);
    }
  }

  /** A value and what follows it, with as many brackets open as the depth says. */
  lemma {:induction false} ValueLaid(j: Json, open: string, rest: string)
    requires Printable(j) && LaidOut(rest, open)
    ensures LaidOut(Render(j, true, |open|) + rest, open)
    decreases j, 2
  {
    if j.Str? {
      StringLaid(j.s, rest, open);
    } else if j.Arr? {
      ClosesArray(open, rest);
      ElemsLaid(j.elems, open + "[", "]" + rest);
      ArrayOpens(j.elems, open, rest);
    } else if j.Obj? {
      assert (open + "{")[..|open|] == open;
      MembersLaid(j.members, open + "{", rest);
      ObjectOpens(j.members, open, rest);
    } else {
      WordLaid(j, true, |open|, rest, open);
    }
    hide LaidOut;
    hide Render;
  }

  lemma StringLaid(s: string, rest: string, open: string)
    ensures LaidOut(Quote(s) + rest, open) <==> LaidOut(rest, open)
    ensures Compact(Quote(s) + rest) <==> Compact(rest)
  {
    AfterQuote(s, rest);
    hide Quote;
    hide AfterString;
  }

  lemma ArrayOpens(es: seq<Json>, open: string, rest: string)
    requires LaidOut(RenderElems(es, true, |open + "["|) + ("]" + rest), open + "[")
    ensures LaidOut(Render(Arr(es), true, |open|) + rest, open)
  {
    var inner := RenderElems(es, true, |open| + 1);
    hide RenderElems;
    assert ("[" + inner + "]") + rest == "[" + (inner + ("]" + rest));
    Begins("[", inner + ("]" + rest));
  }

  lemma ClosesArray(open: string, rest: string)
    requires LaidOut(rest, open)
    ensures LaidOut("]" + rest, open + "[")
  {
    Begins("]", rest);
    assert (open + "[")[..|open|] == open;
  }

  lemma Begins(t: string, rest: string)
    requires |t| == 1
    ensures (t + rest)[0] == t[0] && (t + rest)[1..] == rest
  {
  }

  lemma ObjectOpens(ms: seq<Member<Json>>, open: string, rest: string)
    requires LaidOut(MembersText(ms, |open + "{"|, rest), open + "{")
    ensures LaidOut(Render(Obj(ms), true, |open|) + rest, open)
  {
    var inner := RenderMembers(ms, true, |open| + 1);
    hide RenderMembers;
    assert ("{\n" + inner + (Tabs(|open|) + "}")) + rest == "{" + MembersText(ms, |open| + 1, rest);
    Begins("{", MembersText(ms, |open| + 1, rest));
  }

  /** The members of an object from the line break behind its brace, or behind a member, on. */
  ghost function MembersText(ms: seq<Member<Json>>, d: nat, rest: string): string
    requires d > 0
  {
    "\n" + (RenderMembers(ms, true, d) + (Tabs(d - 1) + ("}" + rest)))
  }

  lemma {:induction false} ElemsLaid(es: seq<Json>, open: string, rest: string)
    requires (forall i :: 0 <= i < |es| ==> Printable(es[i])) && Innermost(open, '[') && LaidOut(rest, open)
    ensures LaidOut(RenderElems(es, true, |open|) + rest, open)
    decreases es, 1
  {
    hide *;
    ElemsParts(es, true, |open|, rest);
    if es == [] {
    } else {
      ElemsLaid(es[1..], open, rest);
      ElemGoesOn(es, open, rest);
      ValueLaid(es[0], open, ElemEnd(|es|, true) + (RenderElems(es[1..], true, |open|) + rest));
    }
  }

  lemma ElemsParts(es: seq<Json>, format: bool, d: nat, rest: string)
    ensures es == [] ==> RenderElems(es, format, d) + rest == rest
    ensures es != [] ==> (
      var after := ElemEnd(|es|, format) + (RenderElems(es[1..], format, d) + rest);
      RenderElems(es, format, d) + rest == Render(es[0], format, d) + after)
  {
    hide Render;
    hide ElemEnd;
  }

  lemma ElemGoesOn(es: seq<Json>, open: string, rest: string)
    requires es != [] && (forall i :: 0 <= i < |es| ==> Printable(es[i])) && Innermost(open, '[')
    requires LaidOut(RenderElems(es[1..], true, |open|) + rest, open)
    ensures LaidOut(ElemEnd(|es|, true) + (RenderElems(es[1..], true, |open|) + rest), open)
  {
    var tail := RenderElems(es[1..], true, |open|) + rest;
    if |es| == 1 {
      hide LaidOut;
      hide RenderElems;
      assert "" + tail == tail;
    } else {
      RenderHead(es[1], true, |open|);
      hide Render;
      assert tail[0] == Render(es[1], true, |open|)[0];
      hide RenderElems;
      SpacesElem(tail, open);
    }
  }

  lemma SpacesElem(tail: string, open: string)
    requires tail != "" && Visible(tail[0]) && Innermost(open, '[') && LaidOut(tail, open)
    ensures LaidOut(", " + tail, open)
  {
    Begins(",", " " + tail);
    Begins(" ", tail);
    assert ", " + tail == "," + (" " + tail);
    hide Visible;
  }

  lemma {:induction false} MembersLaid(ms: seq<Member<Json>>, open: string, rest: string)
    requires forall i :: 0 <= i < |ms| ==> NulFree(ms[i].key) && Printable(ms[i].value)
    requires Innermost(open, '{') && LaidOut(rest, open[..|open| - 1])
    ensures LaidOut(MembersText(ms, |open|, rest), open)
    decreases ms, 1
  {
    if ms == [] {
      ClosesObject(open, rest);
      assert RenderMembers([], true, |open|) + (Tabs(|open| - 1) + ("}" + rest)) == Tabs(|open| - 1) + ("}" + rest);
    } else {
      var m, more := ms[0], MembersText(ms[1..], |open|, rest);
      var after := if |ms| == 1 then more else "," + more;
      MembersLaid(ms[1..], open, rest);
      MemberGoesOn(ms, open, rest);
      ValueLaid(m.value, open, after);
      RenderHead(m.value, true, |open|);
      SpacesValue(Render(m.value, true, |open|) + after, open);
      StringLaid(m.key, ":\t" + (Render(m.value, true, |open|) + after), open);
      NewLine(Quote(m.key) + (":\t" + (Render(m.value, true, |open|) + after)), open);
      MembersParts(ms, |open|, rest);
    }
    hide *;
  }

  lemma ClosesObject(open: string, rest: string)
    requires Innermost(open, '{') && LaidOut(rest, open[..|open| - 1])
    ensures LaidOut("\n" + (Tabs(|open| - 1) + ("}" + rest)), open)
  {
    var n: nat := |open| - 1;
    var r := Tabs(n) + ("}" + rest);
    Begins("\n", r);
    Begins("}", rest);
    TabsRun(n, "}" + rest);
    assert r[n] == '}' && r[n + 1..] == rest;
    hide TabRun;
    hide Tabs;
  }

  lemma MemberGoesOn(ms: seq<Member<Json>>, open: string, rest: string)
    requires ms != [] && Innermost(open, '{') && LaidOut(MembersText(ms[1..], |open|, rest), open)
    ensures var more := MembersText(ms[1..], |open|, rest);
      LaidOut(if |ms| == 1 then more else "," + more, open)
  {
    var more := MembersText(ms[1..], |open|, rest);
    assert more[0] == '\n';
    hide MembersText;
    BreaksMember(more, open);
  }

  lemma BreaksMember(more: string, open: string)
    requires more != "" && more[0] == '\n' && Innermost(open, '{') && LaidOut(more, open)
    ensures LaidOut("," + more, open)
  {
    var t := "," + more;
    Begins(",", more);
    assert t[0] == ',' && ByteAt(more, 0) == '\n' && !Innermost(open, '[');
    hide TabRun;
    hide AfterString;
    assert LaidOut(t, open) == LaidOut(t[1..], open);
  }

  lemma SpacesValue(tail: string, open: string)
    requires tail != "" && Visible(tail[0]) && LaidOut(tail, open)
    ensures LaidOut(":\t" + tail, open)
  {
    Begins(":", "\t" + tail);
    Begins("\t", tail);
    assert ":\t" + tail == ":" + ("\t" + tail);
    hide Visible;
  }

  lemma NewLine(tail: string, open: string)
    requires tail != "" && tail[0] == '\"' && LaidOut(tail, open)
    ensures LaidOut("\n" + (Tabs(|open|) + tail), open)
  {
    var n := |open|;
    var r := Tabs(n) + tail;
    Begins("\n", r);
    TabsRun(n, tail);
    assert r[n] == tail[0] && r[n..] == tail;
    hide TabRun;
    hide Tabs;
  }

  lemma MembersParts(ms: seq<Member<Json>>, d: nat, rest: string)
    requires ms != [] && d > 0
    ensures var more := MembersText(ms[1..], d, rest);
      MembersText(ms, d, rest) == "\n" + (Tabs(d) + (Quote(ms[0].key)
        + (":\t" + (Render(ms[0].value, true, d) + if |ms| == 1 then more else "," + more))))
  {
    var k, t, more := Quote(ms[0].key), Render(ms[0].value, true, d), RenderMembers(ms[1..], true, d);
    var close := Tabs(d - 1) + ("}" + rest);
    assert RenderMembers(ms, true, d) == (Tabs(d) + k + ":\t" + t + MemberEnd(|ms| == 1, true)) + more by {
      hide Render;
      hide Quote;
      hide Tabs;
      hide MemberEnd;
    }
    var comma := if |ms| == 1 then "" else ",";
    MemberText(Tabs(d), k, t, comma, more, close);
    assert |ms| == 1 ==> "" + ("\n" + (more + close)) == "\n" + (more + close);
    assert MemberEnd(|ms| == 1, true) == comma + "\n";
    hide *;
  }

  lemma MemberText(a: string, k: string, t: string, c: string, more: string, close: string)
    ensures (a + k + ":\t" + t + (c + "\n") + more) + close
      == a + (k + (":\t" + (t + (c + ("\n" + (more + close))))))
  {
  }

  /** Formatted text is laid out. */
  lemma RenderLaid(j: Json)
    requires Printable(j)
    ensures LaidOut(Render(j, true, 0), "")
  {
    ValueLaid(j, "", "");
    hide *;
    assert Render(j, true, 0) + "" == Render(j, true, 0);
  }

  // ---- unformatted text ----

  lemma {:induction false} ValueCompact(j: Json, d: nat, rest: string)
    requires Printable(j) && Compact(rest)
    ensures Compact(Render(j, false, d) + rest)
    decreases j, 2
  {
    if j.Str? {
      StringLaid(j.s, rest, "");
    } else if j.Arr? {
      Begins("]", rest);
      ElemsCompact(j.elems, d + 1, "]" + rest);
      Encloses("[", RenderElems(j.elems, false, d + 1), "]", rest);
    } else if j.Obj? {
      Begins("}", rest);
      MembersCompact(j.members, d + 1, "}" + rest);
      Encloses("{", RenderMembers(j.members, false, d + 1), "}", rest);
    } else {
      WordLaid(j, false, d, rest, "");
    }
    hide Compact;
    hide RenderElems;
    hide RenderMembers;
    hide Quote;
  }

  lemma Encloses(a: string, t: string, b: string, rest: string)
    requires |a| == 1 && a[0] > ' ' && a[0] != '\"' && Compact(t + (b + rest))
    ensures Compact(a + t + b + rest) && Compact(a + t + ("" + b) + rest)
  {
    assert a + t + b + rest == a + (t + (b + rest)) && "" + b == b;
    Begins(a, t + (b + rest));
  }

  lemma {:induction false} ElemsCompact(es: seq<Json>, d: nat, rest: string)
    requires (forall i :: 0 <= i < |es| ==> Printable(es[i])) && Compact(rest)
    ensures Compact(RenderElems(es, false, d) + rest)
    decreases es, 1
  {
    hide *;
    ElemsParts(es, false, d, rest);
    if es == [] {
    } else {
      var more := RenderElems(es[1..], false, d) + rest;
      ElemsCompact(es[1..], d, rest);
      CommaCompact(more);
      ValueCompact(es[0], d, ElemEnd(|es|, false) + more);
    }
  }

  lemma CommaCompact(more: string)
    requires Compact(more)
    ensures Compact("" + more) && Compact("," + more) && Compact(":" + more)
    ensures forall n :: Compact(ElemEnd(n, false) + more)
  {
    assert "" + more == more;
    Begins(",", more);
    Begins(":", more);
  }

  lemma {:induction false} MembersCompact(ms: seq<Member<Json>>, d: nat, rest: string)
    requires (forall i :: 0 <= i < |ms| ==> NulFree(ms[i].key) && Printable(ms[i].value)) && Compact(rest)
    ensures Compact(RenderMembers(ms, false, d) + rest)
    decreases ms, 1
  {
    if ms == [] {
      assert RenderMembers(ms, false, d) + rest == rest;
    } else {
      var m, more := ms[0], RenderMembers(ms[1..], false, d) + rest;
      var after := MemberEnd(|ms| == 1, false) + more;
      MembersCompact(ms[1..], d, rest);
      CommaCompact(more);
      assert MemberEnd(|ms| == 1, false) == if |ms| == 1 then "" else ",";
      ValueCompact(m.value, d, after);
      CommaCompact(Render(m.value, false, d) + after);
      StringLaid(m.key, ":" + (Render(m.value, false, d) + after), "");
      MemberParts(ms, d, rest);
    }
    hide Compact;
    hide Render;
    hide RenderMembers;
    hide Quote;
    hide MemberEnd;
  }

  lemma MemberParts(ms: seq<Member<Json>>, d: nat, rest: string)
    requires ms != []
    ensures var after := MemberEnd(|ms| == 1, false) + (RenderMembers(ms[1..], false, d) + rest);
      RenderMembers(ms, false, d) + rest == Quote(ms[0].key) + (":" + (Render(ms[0].value, false, d) + after))
  {
    hide Render;
    hide Quote;
    hide MemberEnd;
    assert Indent(false, d) == "" && Colon(false) == ":";
  }

  /** Unformatted text has no blank outside its strings. */
  lemma RenderCompact(j: Json, d: nat)
    requires Printable(j)
    ensures Compact(Render(j, false, d))
  {
    ValueCompact(j, d, "");
    hide *;
    assert Render(j, false, d) + "" == Render(j, false, d);
  }
}
