/** Parsing the printed text of a tree gives the tree back. */
module ParseRoundTrip {
  import opened Text
  import opened Json
  import opened Pointer
  import opened Rendering
  import opened StringCodec
  import opened StringRfc
  import opened Parser
  import opened Grammar

  // ---- numbers ----

  function Power(k: nat): nat {
    if k == 0 then 1 else 10 * Power(k - 1)
  }

  lemma {:induction false} DigitsLength(n: nat, k: nat)
    requires n < Power(k) && k > 0
    ensures |Digits(n)| <= k
    decreases k
  {
    assert Power(0) == 1;
    if n < 10 {
    } else {
      assert n / 10 < Power(k - 1);
      DigitsLength(n / 10, k - 1);
    }
  }

  lemma IntLength(n: int)
    requires INT_MIN <= n <= INT_MAX
    ensures 0 < |IntText(n)| <= 11
  {
    assert Power(10) == 10_000_000_000;
    DigitsLength(if n < 0 then -n else n, 10);
  }

  lemma {:induction false} RunOfDigits(t: string, i: nat, n: nat)
    requires i <= |t| && t[i..] == Digits(n)
    ensures DigitRun(t, i) == |t|
  {
    DigitsInRange(n);
    assert forall k :: i <= k < |t| ==> t[k] == t[i..][k - i];
    RunToEnd(t, i);
  }

  lemma {:induction false} RunToEnd(t: string, i: nat)
    requires i <= |t| && forall k :: i <= k < |t| ==> IsDigit(t[k])
    ensures DigitRun(t, i) == |t|
    decreases |t| - i
  {
    if i == |t| {
    } else {
      RunToEnd(t, i + 1);
    }
  }

  lemma {:induction false} ValueOfDigits(t: string, i: nat, n: nat)
    requires i <= |t| && t[i..] == Digits(n)
    ensures DigitsValue(t, i, |t|) == n
    decreases n
  {
    var m := |t| - 1;
    var d := DigitChar(n % 10);
    assert d as int - '0' as int == n % 10;
    assert t[m] == t[i..][m - i] == d;
    if n < 10 {
      assert m == i;
    } else {
      var u := t[..m];
      assert u[i..] == t[i..][..m - i] == Digits(n / 10);
      ValueOfDigits(u, i, n / 10);
      ValueOfPrefix(t, u, i, m);
    }
  }

  /** `strtod` on a printed integer. */
  lemma StrtodInt(n: int)
    ensures Strtod(IntText(n)) == (|IntText(n)|, n as real)
  {
    var t, m: nat := IntText(n), if n < 0 then -n else n;
    var i := if n < 0 then 1 else 0;
    assert t[i..] == Digits(m);
    DigitsInRange(m);
    assert n >= 0 ==> t[0] == Digits(m)[0];
    RunOfDigits(t, i, m);
    ValueOfDigits(t, i, m);
    assert Pow10(0) == 1.0;
    assert DigitsValue(t, |t| + 1, |t|) == 0;
  }

  lemma IntFacts(d: real)
    requires IsInt32(d)
    ensures var t := IntText(ValueInt(d));
      0 < |t| <= 11 && Strtod(t) == (|t|, d) && (t[0] == '-' || IsDigit(t[0]))
        && forall k :: 0 <= k < |t| ==> NumberChar(t[k])
  {
    IntOfReal(d);
    hide IntText;
    hide Strtod;
    hide IsInt32;
    hide ValueInt;
    IntLength(ValueInt(d));
    IntChars(ValueInt(d));
    StrtodInt(ValueInt(d));
  }

  lemma IntChars(n: int)
    ensures var t := IntText(n); (t[0] == '-' || IsDigit(t[0])) && forall k :: 0 <= k < |t| ==> NumberChar(t[k])
  {
    DigitsInRange(if n < 0 then -n else n);
  }

  lemma IntOfReal(d: real)
    requires IsInt32(d)
    ensures ValueInt(d) as real == d && INT_MIN <= ValueInt(d) <= INT_MAX
  {
    var n := d.Floor;
    assert d == n as real && -d == (-n) as real;
    assert (-d).Floor == -n;
  }

  // ---- strings ----

  lemma {:induction false} CStringWhole(t: string)
    requires NulFree(t)
    ensures CString(t) == t
  {
    if t == "" {
    } else {
      CStringWhole(t[1..]);
      assert t == [t[0]] + t[1..];
    }
  }

  lemma ParsesQuoted(s: string, i: nat, str: string)
    requires NulFree(str) && Reads(s, i, Quote(str))
    ensures i < |s| && s[i] == '\"' && ParseString(s, i) == Ok(str, i + |Quote(str)|)
  {
    hide Escape;
    hide Decode;
    hide ScanString;
    assert Quote(str) == "\"" + (Escape(str) + "\"");
    ReadsSplit(s, i, "\"", Escape(str) + "\"");
    ReadsAt(s, i, "\"", 0);
    DecodesEscaped(s, i + 1, str);
    CStringWhole(str);
  }

  // ---- containers ----

  /** A printed value starts with a visible byte that is no closing bracket. */
  lemma RenderHead(j: Json, format: bool, depth: nat)
    requires Printable(j)
    ensures var t := Render(j, format, depth); t != "" && t[0] > ' ' && t[0] != ']' && t[0] != '}'
  {
    if j.Number? {
      var n := ValueInt(j.d);
      DigitsInRange(if n < 0 then -n else n);
    }
  }

  lemma ElemsHead(es: seq<Json>, format: bool, d: nat)
    requires es != [] && Printable(es[0])
    ensures var t := RenderElems(es, format, d) + "]"; t != "" && t[0] > ' ' && t[0] != ']'
  {
    RenderHead(es[0], format, d);
    hide Render;
  }

  /** The text of an element list with its closing bracket, cut behind the first element. */
  lemma ElemsText(es: seq<Json>, format: bool, d: nat)
    requires es != []
    ensures RenderElems(es, format, d) + "]" == Render(es[0], format, d) + AfterElem(es, format, d)
    ensures |es| == 1 ==> AfterElem(es, format, d) == "]"
    ensures |es| > 1 ==>
      var blank := if format then " " else "";
      AfterElem(es, format, d) == "," + (blank + (RenderElems(es[1..], format, d) + "]"))
  {
    hide Render;
  }

  function AfterElem(es: seq<Json>, format: bool, d: nat): string
    requires es != []
  {
    ElemEnd(|es|, format) + (RenderElems(es[1..], format, d) + "]")
  }

  /** The blank text behind an opening brace. */
  function OpenBlank(format: bool, d: nat): (t: string)
    ensures Blank(t)
  {
    (if format then "\n" else "") + Indent(format, d)
  }

  lemma EmptyObjectText(format: bool, d: nat)
    ensures Render(Obj([]), format, d) == "{" + (OpenBlank(format, d) + "}")
  {
    assert RenderMembers([], format, d + 1) == "";
  }

  lemma ObjectText(ms: seq<Member<Json>>, format: bool, d: nat)
    requires ms != []
    ensures Render(Obj(ms), format, d) == "{" + (OpenBlank(format, d + 1) + MembersTail(ms, format, d + 1))
    ensures MembersTail(ms, format, d + 1) != "" && MembersTail(ms, format, d + 1)[0] == '\"'
  {
    TailOf(ms, format, d + 1);
    assert Render(Obj(ms), format, d)
      == ("{" + (if format then "\n" else "")) + (RenderMembers(ms, format, d + 1) + Close(format, d)) by {
      hide RenderMembers;
      hide Close;
    }
    Regroup("{", if format then "\n" else "", Indent(format, d + 1), MembersTail(ms, format, d + 1));
    hide Render;
    hide RenderMembers;
    hide MembersTail;
    hide Indent;
    hide Close;
  }

  lemma Regroup(a: string, b: string, c: string, d: string)
    ensures (a + b) + (c + d) == a + ((b + c) + d)
  {
  }

  /** The text of a member list and the closing brace, without the first indentation. */
  function MembersTail(ms: seq<Member<Json>>, format: bool, d: nat): string
    requires ms != [] && d > 0
  {
    Quote(ms[0].key) + (Colon(format) + (Render(ms[0].value, format, d) + AfterMember(ms, format, d)))
  }

  /** What follows the first value. */
  function AfterMember(ms: seq<Member<Json>>, format: bool, d: nat): string
    requires ms != [] && d > 0
  {
    MemberEnd(|ms| == 1, format) + (RenderMembers(ms[1..], format, d) + Close(format, d - 1))
  }

  lemma TailOf(ms: seq<Member<Json>>, format: bool, d: nat)
    requires ms != [] && d > 0
    ensures RenderMembers(ms, format, d) + Close(format, d - 1) == Indent(format, d) + MembersTail(ms, format, d)
    ensures MembersTail(ms, format, d) != "" && MembersTail(ms, format, d)[0] == '\"'
  {
    hide Render;
    hide Escape;
    hide Indent;
    hide Colon;
    hide MemberEnd;
    hide Close;
    Regroup6(Indent(format, d), Quote(ms[0].key), Colon(format), Render(ms[0].value, format, d),
             MemberEnd(|ms| == 1, format), RenderMembers(ms[1..], format, d), Close(format, d - 1));
  }

  lemma Regroup6(a: string, b: string, c: string, d: string, e: string, f: string, g: string)
    ensures (a + b + c + d + e + f) + g == a + (b + (c + (d + (e + (f + g)))))
  {
  }

  lemma AfterLast(ms: seq<Member<Json>>, format: bool, d: nat)
    requires |ms| == 1 && d > 0
    ensures AfterMember(ms, format, d) == OpenBlank(format, d - 1) + "}"
  {
    assert RenderMembers(ms[1..], format, d) == "";
  }

  lemma AfterOther(ms: seq<Member<Json>>, format: bool, d: nat)
    requires |ms| > 1 && d > 0
    ensures AfterMember(ms, format, d) == "," + (OpenBlank(format, d) + MembersTail(ms[1..], format, d))
    ensures MembersTail(ms[1..], format, d) != "" && MembersTail(ms[1..], format, d)[0] == '\"'
  {
    TailOf(ms[1..], format, d);
    assert AfterMember(ms, format, d)
      == ("," + (if format then "\n" else "")) + (RenderMembers(ms[1..], format, d) + Close(format, d - 1)) by {
      hide RenderMembers;
      hide Close;
    }
    Regroup(",", if format then "\n" else "", Indent(format, d), MembersTail(ms[1..], format, d));
    hide AfterMember;
    hide RenderMembers;
    hide MembersTail;
    hide Close;
    hide Indent;
  }

  // ---- printed text in the grammar ----

  /** The printed text of a tree as a text of the grammar. */
  ghost function Printed(j: Json, format: bool, d: nat): Form
    decreases j, 0
  {
    match j
    case Number(n) => Numeral(IntText(ValueInt(n)))
    case Str(str) => Quoted(Escape(str))
    case Arr(es) => if es == [] then NoElements("") else Elements(PrintedElems(es, true, format, d + 1))
    case Obj(ms) => if ms == [] then NoMembers(OpenBlank(format, d)) else Members(PrintedMembers(ms, format, d + 1))
    case _ => Word(j)
  }

  ghost function PrintedElems(es: seq<Json>, first: bool, format: bool, d: nat): (items: seq<Item>)
    ensures |items| == |es|
    decreases es, 0
  {
    if es == [] then []
    else
      [Item(if first || !format then "" else " ", Printed(es[0], format, d), "")]
      + PrintedElems(es[1..], false, format, d)
  }

  ghost function PrintedMembers(ms: seq<Member<Json>>, format: bool, d: nat): (pairs: seq<Binding>)
    requires d > 0
    ensures |pairs| == |ms|
    decreases ms, 0
  {
    if ms == [] then []
    else
      var after := if |ms| == 1 then OpenBlank(format, d - 1) else "";
      var ahead := if format then "\t" else "";
      [Binding(OpenBlank(format, d), Escape(ms[0].key), "", ahead, Printed(ms[0].value, format, d), after)]
      + PrintedMembers(ms[1..], format, d)
  }

  lemma {:induction false} PrintedWritten(j: Json, format: bool, d: nat)
    requires Printable(j)
    ensures Written(Printed(j, format, d)) == Render(j, format, d)
    decreases j, 1
  {
    hide Escape;
    hide Digits;
    hide OpenBlank;
    hide ItemsBody;
    hide PairsBody;
    match j {
      case Str(str) => QuoteText(str);
      case Arr(es) =>
        if es == [] {
        } else {
          ElemsWritten(es, true, format, d + 1);
        }
      case Obj(ms) =>
        if ms == [] {
          EmptyObjectText(format, d);
        } else {
          MembersWritten(ms, format, d + 1);
          ObjectText(ms, format, d);
        }
      case _ =>
    }
  }

  lemma QuoteText(str: string)
    ensures InQuotes(Escape(str)) == Quote(str)
  {
    hide Escape;
  }

  lemma {:induction false} ElemsWritten(es: seq<Json>, first: bool, format: bool, d: nat)
    requires es != [] && forall k :: 0 <= k < |es| ==> Printable(es[k])
    ensures ItemsText(PrintedElems(es, first, format, d))
      == (if first || !format then "" else " ") + (RenderElems(es, format, d) + "]")
    decreases es, 0
  {
    hide Render;
    hide RenderElems;
    hide AfterElem;
    hide Written;
    hide Printed;
    hide ItemsText;
    var items := PrintedElems(es, first, format, d);
    assert items[1..] == PrintedElems(es[1..], false, format, d);
    PrintedWritten(es[0], format, d);
    ElemsText(es, format, d);
    if |es| > 1 {
      ElemsWritten(es[1..], false, format, d);
    }
    TextOfItems(items);
  }

  lemma TextOfItems(items: seq<Item>)
    requires items != [] && items[0].after == ""
    ensures ItemsText(items) == items[0].before
      + (Written(items[0].form) + (if |items| == 1 then "]" else "," + ItemsText(items[1..])))
  {
    hide Written;
    var tail := if |items| == 1 then "]" else "," + ItemsText(items[1..]);
    assert "" + tail == tail;
  }

  lemma {:induction false} MembersWritten(ms: seq<Member<Json>>, format: bool, d: nat)
    requires ms != [] && d > 0 && forall k :: 0 <= k < |ms| ==> NulFree(ms[k].key) && Printable(ms[k].value)
    ensures PairsText(PrintedMembers(ms, format, d)) == OpenBlank(format, d) + MembersTail(ms, format, d)
    decreases ms, 0
  {
    hide Render;
    hide AfterMember;
    hide Written;
    hide Printed;
    hide PairsText;
    hide OpenBlank;
    hide Quote;
    hide Escape;
    hide InQuotes;
    var pairs := PrintedMembers(ms, format, d);
    assert pairs[1..] == PrintedMembers(ms[1..], format, d);
    PrintedWritten(ms[0].value, format, d);
    QuoteText(ms[0].key);
    if |ms| == 1 {
      AfterLast(ms, format, d);
    } else {
      AfterOther(ms, format, d);
      MembersWritten(ms[1..], format, d);
    }
    TextOfPairs(pairs);
    ColonText(format, Render(ms[0].value, format, d) + AfterMember(ms, format, d));
  }

  lemma TextOfPairs(pairs: seq<Binding>)
    requires pairs != [] && pairs[0].behind == ""
    ensures var p, end := pairs[0], PairsEnd(pairs);
      PairsText(pairs) == p.before + (InQuotes(p.name) + (":" + (p.ahead + (Written(p.form) + (p.after + end)))))
  {
    hide Written;
    hide InQuotes;
    var p := pairs[0];
    var tail := ":" + (p.ahead + (Written(p.form) + (p.after + PairsEnd(pairs))));
    assert "" + tail == tail;
  }

  lemma ColonText(format: bool, rest: string)
    ensures Colon(format) + rest == ":" + ((if format then "\t" else "") + rest)
  {
  }

  lemma {:induction false} PrintedSane(j: Json, format: bool, d: nat)
    requires Printable(j)
    ensures Sane(Printed(j, format, d)) && Value(Printed(j, format, d)) == j
    decreases j, 1
  {
    hide Escape;
    hide IntText;
    hide Strtod;
    hide StringOf;
    hide ValueInt;
    match j {
      case Number(n) => IntFacts(n);
      case Str(str) => EscapeRead(str);
      case Arr(es) => ElemsSane(es, true, format, d + 1);
      case Obj(ms) => MembersSane(ms, format, d + 1);
      case _ =>
    }
  }

  lemma EscapeRead(str: string)
    requires NulFree(str)
    ensures StringOf(Escape(str)) == Some(str)
  {
    var t := InQuotes(Escape(str));
    QuoteText(str);
    assert Reads(t, 0, Quote(str));
    ParsesQuoted(t, 0, str);
    hide ParseString;
    hide Escape;
  }

  lemma {:induction false} ElemsSane(es: seq<Json>, first: bool, format: bool, d: nat)
    requires forall k :: 0 <= k < |es| ==> Printable(es[k])
    ensures var items := PrintedElems(es, first, format, d); SaneItems(items) && ItemValues(items) == es
    decreases es, 0
  {
    hide Printed;
    hide Sane;
    hide Value;
    if es == [] {
    } else {
      PrintedSane(es[0], format, d);
      ElemsSane(es[1..], false, format, d);
      assert PrintedElems(es, first, format, d)[1..] == PrintedElems(es[1..], false, format, d);
      assert es == [es[0]] + es[1..];
    }
  }

  lemma {:induction false} MembersSane(ms: seq<Member<Json>>, format: bool, d: nat)
    requires d > 0 && forall k :: 0 <= k < |ms| ==> NulFree(ms[k].key) && Printable(ms[k].value)
    ensures var pairs := PrintedMembers(ms, format, d); SanePairs(pairs) && PairValues(pairs) == ms
    decreases ms, 0
  {
    hide Printed;
    hide Sane;
    hide Value;
    hide StringOf;
    hide Escape;
    if ms == [] {
    } else {
      EscapeRead(ms[0].key);
      PrintedSane(ms[0].value, format, d);
      MembersSane(ms[1..], format, d);
      assert PrintedMembers(ms, format, d)[1..] == PrintedMembers(ms[1..], format, d);
      assert ms == [ms[0]] + ms[1..];
    }
  }

  /** At any place and depth the printed text parses back if and only if the nesting fits. */
  lemma ParsesRendered(s: string, i: nat, j: Json, format: bool, d: nat, depth: nat)
    requires Printable(j) && Reads(s, i, Render(j, format, d)) && Stops(s, i + |Render(j, format, d)|)
    requires depth <= NESTING_LIMIT
    ensures Yields(ParseValue(s, i, depth), j, i + |Render(j, format, d)|, Fits(Nesting(j), depth))
  {
    hide *;
    PrintedSane(j, format, d);
    PrintedWritten(j, format, d);
    FormEnds(s, i, Printed(j, format, d));
    ParsesForm(s, i, Printed(j, format, d), depth);
  }

  // ---- the public functions ----

  /** The printed text with its terminator, as `cJSON_Parse` sees it: parsing succeeds exactly when
      the tree is nested at most 1000 deep, takes the whole text, and gives back the tree. */
  lemma PrintParse(j: Json, format: bool, requireNul: bool)
    requires Printable(j)
    ensures var t := Render(j, format, 0);
      var r := Parse(t + [NUL], requireNul);
      if Nesting(j) <= 1000 then r == Ok(j, |t|) else r.Err?
  {
    var t := Render(j, format, 0);
    var s := t + [NUL];
    RenderHead(j, format, 0);
    RenderAscii(j, format, 0);
    hide Render;
    assert s[..|t|] == t;
    NoBom(s);
    WholeText(s, t);
    SkipsNothing(s, 0);
    ParsesRendered(s, 0, j, format, 0, 0);
    assert SkipSpace(s, |t|) == |t|;
  }

  lemma WholeText(s: string, t: string)
    requires s == t + [NUL]
    ensures Reads(s, 0, t) && s[|t|] == NUL && Stops(s, |t|)
  {
  }

  lemma RenderAscii(j: Json, format: bool, depth: nat)
    requires Printable(j)
    ensures Render(j, format, depth) != "" && Render(j, format, depth)[0] as int < 128
  {
    if j.Number? {
      var n := ValueInt(j.d);
      DigitsInRange(if n < 0 then -n else n);
    }
  }

  lemma NoBom(s: string)
    requires s != "" && s[0] as int < 128
    ensures SkipBom(s) == 0
  {
    if |s| > 4 {
      assert s[..3][0] == s[0];
    }
  }
}
