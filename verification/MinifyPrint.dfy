/** Minifying a formatted printout: exactly when the result is the unformatted printout. */
module MinifyPrint {
  import opened Text
  import opened Json
  import opened Pointer
  import opened Rendering
  import opened Parser
  import opened Grammar
  import opened ParseRoundTrip
  import opened Minify

  // ---- minifying is idempotent ----

  lemma {:induction false} CopiedHead(s: string)
    ensures s != "" ==> Copied(s) != "" && Copied(s)[0] == s[0]
    ensures s == "" ==> Copied(s) == ""
  {
  }

  /** Minifying what has been minified changes nothing. */
  lemma {:induction false} MinifiedTwice(s: string)
    ensures Minified(Minified(s)) == Minified(s)
    decreases |s|, 0
  {
    if s == "" {
    } else if Space(s[0]) {
      MinifiedTwice(s[1..]);
    } else if s[0] == '/' {
      MinifiedTwice(s[Slash(s)..]);
    } else if s[0] == '\"' {
      CopiedTwice(s[1..]);
      MinifiedQuote(Copied(s[1..]));
    } else {
      MinifiedTwice(s[1..]);
      MinifiedPlain([s[0]], Minified(s[1..]));
    }
  }

  lemma {:induction false} CopiedTwice(s: string)
    ensures Copied(Copied(s)) == Copied(s)
    decreases |s|, 0
  {
    if s == "" {
    } else if s[0] == '\"' {
      MinifiedTwice(s[1..]);
      CopiedQuote(Minified(s[1..]));
    } else if s[0] == '\\' && ByteAt(s, 1) == '\"' {
      CopiedTwice(s[2..]);
      CopiedEscapedQuote(Copied(s[2..]));
    } else {
      CopiedTwice(s[1..]);
      CopiedHead(s[1..]);
      CopiedText([s[0]], Copied(s[1..]));
    }
  }

  // ---- known text in front ----

  lemma MinifiedQuote(rest: string)
    ensures Minified("\"" + rest) == "\"" + Copied(rest)
  {
    assert ("\"" + rest)[1..] == rest;
  }

  lemma CopiedQuote(rest: string)
    ensures Copied("\"" + rest) == "\"" + Minified(rest)
  {
    assert ("\"" + rest)[1..] == rest;
  }

  lemma CopiedEscapedQuote(rest: string)
    ensures Copied("\\\"" + rest) == "\\\"" + Copied(rest)
  {
    assert ("\\\"" + rest)[2..] == rest;
  }

  /** Bytes with no meaning to the minifier. */
  predicate Plain(t: string) {
    forall k :: 0 <= k < |t| ==> !Space(t[k]) && t[k] != '/' && t[k] != '\"'
  }

  lemma {:induction false} MinifiedPlain(t: string, rest: string)
    requires Plain(t)
    ensures Minified(t + rest) == t + Minified(rest)
    decreases |t|
  {
    if t == "" {
      assert t + rest == rest;
    } else {
      assert (t + rest)[1..] == t[1..] + rest;
      MinifiedPlain(t[1..], rest);
      assert t == [t[0]] + t[1..];
    }
  }

  lemma {:induction false} MinifiedBlank(t: string, rest: string)
    requires forall k :: 0 <= k < |t| ==> Space(t[k])
    ensures Minified(t + rest) == Minified(rest)
    decreases |t|
  {
    if t == "" {
      assert t + rest == rest;
    } else {
      assert (t + rest)[1..] == t[1..] + rest;
      MinifiedBlank(t[1..], rest);
    }
  }

  /** Inside a string everything but a quote is copied, unless a backslash meets a quote behind it. */
  lemma {:induction false} CopiedText(t: string, rest: string)
    requires forall k :: 0 <= k < |t| ==> t[k] != '\"'
    requires t != "" && t[|t| - 1] == '\\' ==> ByteAt(rest, 0) != '\"'
    ensures Copied(t + rest) == t + Copied(rest)
    decreases |t|
  {
    if t == "" {
      assert t + rest == rest;
    } else {
      assert (t + rest)[1..] == t[1..] + rest;
      assert ByteAt(t + rest, 1) != '\"' || t[0] != '\\';
      CopiedText(t[1..], rest);
      assert t == [t[0]] + t[1..];
    }
  }

  // ---- a printed string ----

  predicate EndsInBackslash(s: string) {
    s != "" && s[|s| - 1] == '\\'
  }

  /** What is left of the minifier's reading behind a printed string: if the string ends in a
      backslash, the closing quote was taken for an escaped one and copying goes on. */
  function Onwards(open: bool, rest: string): string {
    if open then Copied(rest) else Minified(rest)
  }

  lemma {:induction false} CopiedEscape(s: string, rest: string)
    ensures Copied(Escape(s) + ("\"" + rest)) == Escape(s) + ("\"" + Onwards(EndsInBackslash(s), rest))
    decreases |s|
  {
    if s == "" {
      EmptyEscape(rest);
    } else if s == "\\" {
      OnlyBackslash(rest);
    } else {
      var t, more, open := EscapeChar(s[0]), Escape(s[1..]), EndsInBackslash(s);
      EscapeCons(s);
      EscapeHead(s[1..]);
      CopiedEscape(s[1..], rest);
      hide Escape;
      hide EscapeChar;
      hide Copied;
      hide Onwards;
      hide EndsInBackslash;
      Regroup4(t, more, "\"", rest);
      assert ByteAt(more + ("\"" + rest), 0) == '\"' ==> s[1..] == "";
      CopiedEscapeChar(s[0], more + ("\"" + rest));
      Regroup4(t, more, "\"", Onwards(open, rest));
    }
  }

  lemma EmptyEscape(rest: string)
    ensures Copied(Escape("") + ("\"" + rest)) == Escape("") + ("\"" + Onwards(EndsInBackslash(""), rest))
  {
    assert "" + ("\"" + rest) == "\"" + rest;
    CopiedQuote(rest);
    assert "" + ("\"" + Minified(rest)) == "\"" + Minified(rest);
  }

  lemma EscapeCons(s: string)
    requires s != "" && s != "\\"
    ensures Escape(s) == EscapeChar(s[0]) + Escape(s[1..])
    ensures EndsInBackslash(s) == EndsInBackslash(s[1..])
    ensures s[1..] == "" ==> s[0] != '\\'
  {
    if s[1..] == "" {
      assert s == [s[0]];
    }
  }

  lemma Regroup4(a: string, b: string, c: string, d: string)
    ensures (a + b) + (c + d) == a + (b + (c + d))
  {
  }

  lemma OnlyBackslash(rest: string)
    ensures Escape("\\") == "\\\\"
    ensures Copied("\\\\" + ("\"" + rest)) == "\\\\" + ("\"" + Copied(rest))
  {
    var tail := "\\\"" + rest;
    assert "\\\\" + ("\"" + rest) == "\\" + tail;
    CopiedText("\\", tail);
    CopiedEscapedQuote(rest);
    assert "\\" + ("\\\"" + Copied(rest)) == "\\\\" + ("\"" + Copied(rest));
  }

  lemma EscapeHead(s: string)
    ensures s != "" ==> Escape(s) != "" && Escape(s)[0] != '\"'
  {
  }

  lemma CopiedEscapeChar(c: char, rest: string)
    requires c == '\\' ==> ByteAt(rest, 0) != '\"'
    ensures Copied(EscapeChar(c) + rest) == EscapeChar(c) + Copied(rest)
  {
    if c == '\"' {
      CopiedEscapedQuote(rest);
    } else {
      CopiedText(EscapeChar(c), rest);
    }
  }

  /** A printed string in front of more text. */
  lemma MinifiedString(s: string, rest: string)
    ensures Minified(Quote(s) + rest) == Quote(s) + Onwards(EndsInBackslash(s), rest)
  {
    CopiedEscape(s, rest);
    hide Escape;
    hide Onwards;
    hide EndsInBackslash;
    Regroup3("\"", Escape(s), "\"", rest);
    MinifiedQuote(Escape(s) + ("\"" + rest));
    Regroup3("\"", Escape(s), "\"", Onwards(EndsInBackslash(s), rest));
  }

  lemma Regroup3(a: string, b: string, c: string, d: string)
    ensures ((a + b) + c) + d == a + (b + (c + d))
  {
  }

  // ---- trees ----

  /** How reading the formatted text of a value ends: as it should, still inside a string, or with a
      blank copied that the unformatted text does not have. */
  datatype Ending = Clean | Open | Broken

  function EndingOf(j: Json): Ending {
    match j
    case Str(s) => if EndsInBackslash(s) then Open else Clean
    case Arr(es) => EndingElems(es)
    case Obj(ms) => if MembersClean(ms) then Clean else Broken
    case _ => Clean
  }

  function EndingElems(es: seq<Json>): Ending {
    if es == [] then Clean
    else if |es| == 1 then EndingOf(es[0])
    else if EndingOf(es[0]).Clean? then EndingElems(es[1..])
    else Broken
  }

  predicate MembersClean(ms: seq<Member<Json>>) {
    ms == [] || (!EndsInBackslash(ms[0].key) && EndingOf(ms[0].value).Clean? && MembersClean(ms[1..]))
  }

  /** `m` is the minified text of a value and `rest`; `plain` is the unformatted text of the value. */
  ghost predicate Reads(m: string, plain: string, e: Ending, rest: string) {
    match e
    case Clean => m == plain + Minified(rest)
    case Open => m == plain + Copied(rest)
    case Broken => !(plain <= m)
  }

  lemma Diverge(a: string, x: string, y: string)
    requires x != "" && (y == "" || x[0] != y[0])
    ensures !(a + x <= a + y)
  {
    if a + x <= a + y {
      CutPrefix(a, x, y);
    }
  }

  lemma StillDiverges(a: string, more: string, m: string)
    requires !(a <= m)
    ensures !(a + more <= m)
  {
    if a + more <= m {
      ShortenPrefix(a, more, m);
    }
  }

  lemma UnderPrefix(t: string, p: string, m: string)
    requires !(p <= m)
    ensures !(t + p <= t + m)
  {
    if t + p <= t + m {
      CutPrefix(t, p, m);
    }
  }

  lemma CutPrefix(t: string, p: string, m: string)
    requires t + p <= t + m
    ensures p <= m
  {
    assert forall k :: 0 <= k < |p| ==> p[k] == (t + p)[|t| + k] == (t + m)[|t| + k] == m[k];
  }

  lemma ShortenPrefix(a: string, more: string, m: string)
    requires a + more <= m
    ensures a <= m
  {
    assert forall k :: 0 <= k < |a| ==> a[k] == (a + more)[k] == m[k];
  }

  /** Common text in front. */
  lemma ReadsBehind(t: string, m: string, plain: string, e: Ending, rest: string)
    requires Reads(m, plain, e, rest)
    ensures Reads(t + m, t + plain, e, rest)
  {
    match e {
      case Clean => Associate(t, plain, Minified(rest));
      case Open => Associate(t, plain, Copied(rest));
      case Broken => UnderPrefix(t, plain, m);
    }
  }

  /** Text behind that means the same to both modes. */
  lemma ReadsBefore(m: string, plain: string, e: Ending, t: string, rest: string)
    requires Reads(m, plain, e, t + rest)
    requires Minified(t + rest) == t + Minified(rest) && Copied(t + rest) == t + Copied(rest)
    ensures Reads(m, plain + t, e, rest)
  {
    hide Minified;
    hide Copied;
    match e {
      case Clean => Associate(plain, t, Minified(rest));
      case Open => Associate(plain, t, Copied(rest));
      case Broken => StillDiverges(plain, t, m);
    }
  }

  lemma {:induction false} MinifiesValue(j: Json, d: nat, rest: string)
    requires Printable(j)
    ensures Reads(Minified(Render(j, true, d) + rest), Render(j, false, d), EndingOf(j), rest)
    decreases j, 2
  {
    match j {
      case Null => MinifiedPlain("null", rest);
      case False => MinifiedPlain("false", rest);
      case True => MinifiedPlain("true", rest);
      case Number(x) =>
        DigitsInRange(if ValueInt(x) < 0 then -ValueInt(x) else ValueInt(x));
        MinifiedPlain(IntText(ValueInt(x)), rest);
      case Str(s) => MinifiedString(s, rest);
      case Arr(es) => MinifiesArray(j, d, rest);
      case Obj(ms) => MinifiesObject(j, d, rest);
    }
  }

  lemma {:induction false} MinifiesArray(j: Json, d: nat, rest: string)
    requires j.Arr? && Printable(j)
    ensures Reads(Minified(Render(j, true, d) + rest), Render(j, false, d), EndingOf(j), rest)
    decreases j, 1
  {
    var e, f, p := EndingElems(j.elems), RenderElems(j.elems, true, d + 1), RenderElems(j.elems, false, d + 1);
    assert EndingOf(j) == e && Render(j, true, d) == "[" + f + "]" && Render(j, false, d) == "[" + p + "]";
    MinifiesElems(j.elems, d + 1, "]" + rest);
    hide Render;
    hide RenderElems;
    hide EndingOf;
    hide EndingElems;
    Bracketed(f, p, e, rest);
  }

  lemma Bracketed(f: string, p: string, e: Ending, rest: string)
    requires Reads(Minified(f + ("]" + rest)), p, e, "]" + rest)
    ensures Reads(Minified(("[" + f + "]") + rest), "[" + p + "]", e, rest)
  {
    MinifiedPlain("]", rest);
    CopiedText("]", rest);
    MinifiedPlain("[", f + ("]" + rest));
    hide Minified;
    hide Copied;
    ReadsBefore(Minified(f + ("]" + rest)), p, e, "]", rest);
    ReadsBehind("[", Minified(f + ("]" + rest)), p + "]", e, rest);
    hide Reads;
    Regroup3("[", f, "]", rest);
    Associate("[", p, "]");
  }

  lemma {:induction false} MinifiesElems(es: seq<Json>, d: nat, rest: string)
    requires forall k :: 0 <= k < |es| ==> Printable(es[k])
    ensures Reads(Minified(RenderElems(es, true, d) + rest), RenderElems(es, false, d), EndingElems(es), rest)
    decreases es, 0
  {
    if es == [] {
      assert "" + rest == rest && "" + Minified(rest) == Minified(rest);
    } else {
      OneElem(es, true, d);
      OneElem(es, false, d);
      if |es| == 1 {
        MinifiesValue(es[0], d, rest);
      } else {
        var f, p := RenderElems(es[1..], true, d), RenderElems(es[1..], false, d);
        var f0, p0 := Render(es[0], true, d), Render(es[0], false, d);
        MinifiesValue(es[0], d, ", " + (f + rest));
        MinifiesElems(es[1..], d, rest);
        ElemsHead(es[1..], false, d);
        SecondElem(Minified(f0 + (", " + (f + rest))), p0, EndingOf(es[0]), f + rest, p, EndingElems(es[1..]), rest);
        hide Render;
        hide RenderElems;
        hide Reads;
        assert (f0 + (", " + f)) + rest == f0 + (", " + (f + rest));
      }
    }
  }

  lemma OneElem(es: seq<Json>, format: bool, d: nat)
    requires es != []
    ensures |es| == 1 ==> RenderElems(es, format, d) == Render(es[0], format, d)
    ensures |es| > 1 ==>
      var rest := RenderElems(es[1..], format, d);
      RenderElems(es, format, d) == Render(es[0], format, d) + (Separator(format) + rest)
  {
    hide Render;
  }

  /** One element, and others behind it. */
  lemma SecondElem(m: string, p0: string, e0: Ending, f: string, p: string, e: Ending, rest: string)
    requires Reads(m, p0, e0, ", " + f) && Reads(Minified(f), p, e, rest)
    requires p != "" && p[0] > ' '
    ensures Reads(m, p0 + ("," + p), if e0.Clean? then e else Broken, rest)
  {
    SeparatorText(f);
    hide Minified;
    hide Copied;
    match e0 {
      case Clean =>
        ReadsBehind(",", Minified(f), p, e, rest);
        ReadsBehind(p0, "," + Minified(f), "," + p, e, rest);
      case Open =>
        Diverge(p0 + ",", p, " " + Copied(f));
        Associate(p0, ",", " " + Copied(f));
        Associate(p0, ",", p);
      case Broken =>
        StillDiverges(p0, "," + p, m);
    }
  }

  lemma SeparatorText(f: string)
    ensures Minified(", " + f) == "," + Minified(f)
    ensures Copied(", " + f) == "," + (" " + Copied(f))
  {
    assert ", " + f == "," + (" " + f);
    MinifiedPlain(",", " " + f);
    MinifiedBlank(" ", f);
    CopiedText(", ", f);
    assert ", " + Copied(f) == "," + (" " + Copied(f));
  }

  lemma {:induction false} MinifiesObject(j: Json, d: nat, rest: string)
    requires j.Obj? && Printable(j)
    ensures Reads(Minified(Render(j, true, d) + rest), Render(j, false, d), EndingOf(j), rest)
    decreases j, 1
  {
    if j.members == [] {
      assert j == Obj([]);
      MinifiesEmptyObject(d, rest);
    } else {
      assert j == Obj(j.members);
      ObjectText(j.members, true, d);
      ObjectText(j.members, false, d);
      MinifiesMembers(j.members, d + 1, rest);
      MinifiesFullObject(j.members, d, rest);
    }
  }

  lemma OpenBlankSpaces(d: nat)
    ensures forall k :: 0 <= k < |OpenBlank(true, d)| ==> Space(OpenBlank(true, d)[k])
    ensures OpenBlank(true, d) != "" && OpenBlank(true, d)[0] == '\n' && OpenBlank(false, d) == ""
  {
  }

  lemma MinifiesEmptyObject(d: nat, rest: string)
    ensures Reads(Minified(Render(Obj([]), true, d) + rest), Render(Obj([]), false, d), Clean, rest)
  {
    EmptyObjectText(true, d);
    EmptyObjectText(false, d);
    OpenBlankSpaces(d);
    hide Render;
    hide OpenBlank;
    Blanks("{", OpenBlank(true, d), "}", rest);
    MinifiedPlain("}", rest);
    assert "{" + ("" + "}") == "{}";
    assert "{" + ("}" + Minified(rest)) == "{}" + Minified(rest);
  }

  /** Blanks behind bytes without meaning. */
  lemma Blanks(t: string, blank: string, tail: string, rest: string)
    requires Plain(t) && forall k :: 0 <= k < |blank| ==> Space(blank[k])
    ensures Minified((t + (blank + tail)) + rest) == t + Minified(tail + rest)
  {
    assert (t + (blank + tail)) + rest == t + (blank + (tail + rest));
    MinifiedPlain(t, blank + (tail + rest));
    MinifiedBlank(blank, tail + rest);
  }

  lemma MinifiesFullObject(ms: seq<Member<Json>>, d: nat, rest: string)
    requires ms != []
    requires var plain := MembersTail(ms, false, d + 1);
      Reads(Minified(MembersTail(ms, true, d + 1) + rest), plain, EndingOf(Obj(ms)), rest)
    ensures Reads(Minified(("{" + (OpenBlank(true, d + 1) + MembersTail(ms, true, d + 1))) + rest),
                  "{" + (OpenBlank(false, d + 1) + MembersTail(ms, false, d + 1)), EndingOf(Obj(ms)), rest)
  {
    OpenBlankSpaces(d + 1);
    hide MembersTail;
    hide OpenBlank;
    hide EndingOf;
    var p := MembersTail(ms, false, d + 1);
    Blanks("{", OpenBlank(true, d + 1), MembersTail(ms, true, d + 1), rest);
    ReadsBehind("{", Minified(MembersTail(ms, true, d + 1) + rest), p, EndingOf(Obj(ms)), rest);
    assert "" + p == p;
  }

  /** The members from the first name to the closing brace. */
  lemma {:induction false} MinifiesMembers(ms: seq<Member<Json>>, d: nat, rest: string)
    requires ms != [] && d > 0
    requires forall k :: 0 <= k < |ms| ==> NulFree(ms[k].key) && Printable(ms[k].value)
    ensures Reads(Minified(MembersTail(ms, true, d) + rest), MembersTail(ms, false, d), EndingOf(Obj(ms)), rest)
    decreases ms, 1
  {
    var e := if |ms| == 1 || MembersClean(ms[1..]) then Clean else Broken;
    var fz, pz := AfterMember(ms, true, d), AfterMember(ms, false, d);
    if |ms| == 1 {
      ClosesObject(ms, d, rest);
    } else {
      assert EndingOf(Obj(ms[1..])) == e;
      MinifiesMembers(ms[1..], d, rest);
      NextMember(ms, d, e, rest);
    }
    MinifiesValue(ms[0].value, d, fz + rest);
    RenderHead(ms[0].value, false, d);
    MembersEnding(ms, e);
    hide Render;
    hide AfterMember;
    hide EndingOf;
    hide MembersClean;
    hide Reads;
    OneMember(ms[0], Render(ms[0].value, true, d), Render(ms[0].value, false, d), fz, pz, e, rest);
    assert MembersTail(ms, true, d) == Quote(ms[0].key) + (":\t" + (Render(ms[0].value, true, d) + fz));
    assert MembersTail(ms, false, d) == Quote(ms[0].key) + (":" + (Render(ms[0].value, false, d) + pz));
  }

  lemma MembersEnding(ms: seq<Member<Json>>, e: Ending)
    requires ms != [] && e == if |ms| == 1 || MembersClean(ms[1..]) then Clean else Broken
    ensures EndingOf(Obj(ms)) == if EndsInBackslash(ms[0].key) || !EndingOf(ms[0].value).Clean? then Broken else e
  {
    hide EndsInBackslash;
    assert |ms| == 1 ==> MembersClean(ms[1..]);
    assert MembersClean(ms) <==> !EndsInBackslash(ms[0].key) && EndingOf(ms[0].value).Clean? && MembersClean(ms[1..]);
  }

  /** What follows the last value: the formatted text starts with a line break, the plain one does not. */
  lemma ClosesObject(ms: seq<Member<Json>>, d: nat, rest: string)
    requires |ms| == 1 && d > 0
    ensures Tail(AfterMember(ms, true, d), AfterMember(ms, false, d))
    ensures Reads(Minified(AfterMember(ms, true, d) + rest), AfterMember(ms, false, d), Clean, rest)
  {
    AfterLast(ms, true, d);
    AfterLast(ms, false, d);
    OpenBlankSpaces(d - 1);
    hide AfterMember;
    hide OpenBlank;
    assert "" + "}" == "}";
    assert "" + (OpenBlank(true, d - 1) + "}") == OpenBlank(true, d - 1) + "}";
    Blanks("", OpenBlank(true, d - 1), "}", rest);
    MinifiedPlain("}", rest);
    assert "" + Minified("}" + rest) == Minified("}" + rest);
  }

  /** Copied as they stand, the formatted and the plain text behind a value differ. */
  ghost predicate Tail(f: string, p: string) {
    && p != "" && f != ""
    && (f[0] != p[0] || (|p| > 1 && |f| > 1 && f[0] == ',' && f[1] == '\n' && p[1] != '\n'))
    && f[0] != '\"' && f[0] != '\\'
  }

  lemma NextMember(ms: seq<Member<Json>>, d: nat, e: Ending, rest: string)
    requires |ms| > 1 && d > 0
    requires Reads(Minified(MembersTail(ms[1..], true, d) + rest), MembersTail(ms[1..], false, d), e, rest)
    ensures Tail(AfterMember(ms, true, d), AfterMember(ms, false, d))
    ensures Reads(Minified(AfterMember(ms, true, d) + rest), AfterMember(ms, false, d), e, rest)
  {
    AfterOther(ms, true, d);
    AfterOther(ms, false, d);
    OpenBlankSpaces(d);
    hide AfterMember;
    hide OpenBlank;
    hide MembersTail;
    var f, p := MembersTail(ms[1..], true, d), MembersTail(ms[1..], false, d);
    Blanks(",", OpenBlank(true, d), f, rest);
    assert "" + p == p;
    ReadsBehind(",", Minified(f + rest), p, e, rest);
  }

  /** A name and its value, with what follows already read. */
  lemma OneMember(m: Member<Json>, f: string, p: string, fz: string, pz: string, e: Ending, rest: string)
    requires p != "" && p[0] > ' ' && Tail(fz, pz)
    requires Reads(Minified(f + (fz + rest)), p, EndingOf(m.value), fz + rest)
    requires Reads(Minified(fz + rest), pz, e, rest)
    ensures Reads(Minified((Quote(m.key) + (":\t" + (f + fz))) + rest), Quote(m.key) + (":" + (p + pz)),
                  if EndsInBackslash(m.key) || !EndingOf(m.value).Clean? then Broken else e, rest)
  {
    var k, open, v := Quote(m.key), EndsInBackslash(m.key), if EndingOf(m.value).Clean? then e else Broken;
    var y := f + (fz + rest);
    MinifiedString(m.key, ":\t" + y);
    OneValue(f, p, fz, pz, EndingOf(m.value), e, rest);
    hide Quote;
    hide EndsInBackslash;
    hide EndingOf;
    ColonText(y);
    Regroup5(k, ":\t", f, fz, rest);
    hide Minified;
    hide Copied;
    hide Tail;
    if open {
      Associate(k, ":", "\t" + Copied(y));
      Associate(k, ":", p + pz);
      Diverge(k + ":", p + pz, "\t" + Copied(y));
    } else {
      ReadsBehind(":", Minified(y), p + pz, v, rest);
      ReadsBehind(k, ":" + Minified(y), ":" + (p + pz), v, rest);
    }
  }

  lemma ColonText(y: string)
    ensures Minified(":\t" + y) == ":" + Minified(y)
    ensures Copied(":\t" + y) == ":" + ("\t" + Copied(y))
  {
    assert ":\t" + y == ":" + ("\t" + y);
    MinifiedPlain(":", "\t" + y);
    MinifiedBlank("\t", y);
    CopiedText(":\t", y);
    assert ":\t" + Copied(y) == ":" + ("\t" + Copied(y));
  }

  lemma Regroup5(a: string, b: string, c: string, d: string, e: string)
    ensures (a + (b + (c + d))) + e == a + (b + (c + (d + e)))
  {
  }

  lemma OneValue(f: string, p: string, fz: string, pz: string, ev: Ending, e: Ending, rest: string)
    requires Tail(fz, pz) && Reads(Minified(f + (fz + rest)), p, ev, fz + rest)
      && Reads(Minified(fz + rest), pz, e, rest)
    ensures Reads(Minified(f + (fz + rest)), p + pz, if ev.Clean? then e else Broken, rest)
  {
    match ev {
      case Clean => ReadsBehind(p, Minified(fz + rest), pz, e, rest);
      case Open => TailDiverges(p, fz, pz, rest);
      case Broken => StillDiverges(p, pz, Minified(f + (fz + rest)));
    }
  }

  lemma TailDiverges(p: string, fz: string, pz: string, rest: string)
    requires Tail(fz, pz)
    ensures !(p + pz <= p + Copied(fz + rest))
  {
    var z := fz + rest;
    CopiedHead(z);
    if fz[0] != pz[0] {
      Diverge(p, pz, Copied(z));
    } else {
      assert z == "," + z[1..];
      CopiedText(",", z[1..]);
      CopiedHead(z[1..]);
      assert p + ("," + Copied(z[1..])) == (p + ",") + Copied(z[1..]);
      assert pz == "," + pz[1..];
      assert p + ("," + pz[1..]) == (p + ",") + pz[1..];
      Diverge(p + ",", pz[1..], Copied(z[1..]));
    }
  }

  // ---- the theorem ----

  /** Minifying the formatted printout gives the unformatted one byte for byte exactly when no name
      and no string ends in a backslash, but for the very last string of nested arrays. */
  lemma MinifyAgrees(j: Json)
    requires Printable(j)
    ensures Minified(Render(j, true, 0)) == Render(j, false, 0) <==> !EndingOf(j).Broken?
  {
    MinifiesValue(j, 0, "");
    assert Render(j, true, 0) + "" == Render(j, true, 0) && Render(j, false, 0) + "" == Render(j, false, 0);
  }

  /** A string that ends in a backslash and is not the last one: the blank behind the comma survives. */
  lemma BackslashBreaks()
    ensures var j := Arr([Str("\\"), Null]); Printable(j) && Minified(Render(j, true, 0)) != Render(j, false, 0)
  {
    var j := Arr([Str("\\"), Null]);
    assert j.elems[0] == Str("\\") && j.elems[1] == Null;
    MinifyAgrees(j);
  }

  /** So minified output of that kind still parses to the same tree. */
  lemma MinifiedParses(j: Json, requireNul: bool)
    requires Printable(j) && !EndingOf(j).Broken? && Nesting(j) <= NESTING_LIMIT
    ensures var t := Minified(Render(j, true, 0)); Parse(t + [NUL], requireNul) == Ok(j, |t|)
  {
    MinifyAgrees(j);
    PrintParse(j, false, requireNul);
  }
}
