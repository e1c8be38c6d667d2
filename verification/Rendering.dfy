/** The text of a tree, plain or formatted, as a function. */
module Rendering {
  import opened Text
  import opened Json
  import opened Pointer

  /** Trees the printer accepts and this model covers: no invalid item, 32-bit integers, C strings. */
  ghost predicate Printable(j: Json) {
    match j
    case Invalid => false
    case Number(d) => IsInt32(d)
    case Str(s) => NulFree(s)
    case Arr(es) => forall i :: 0 <= i < |es| ==> Printable(es[i])
    case Obj(ms) => forall i :: 0 <= i < |ms| ==> NulFree(ms[i].key) && Printable(ms[i].value)
    case _ => true
  }

  /** `%d`. */
  function IntText(n: int): string {
    if n < 0 then "-" + Digits(-n) else Digits(n)
  }

  function HexDigit(d: nat): char
    requires d < 16
  {
    if d < 10 then ('0' as int + d) as char else ('a' as int + d - 10) as char
  }

  const BACKSPACE: char := 8 as char
  const FORMFEED: char := 12 as char

  /** A byte inside a printed string. */
  function EscapeChar(c: char): (t: string)
    ensures t != ""
  {
    if c == '\"' then "\\\""
    else if c == '\\' then "\\\\"
    else if c == BACKSPACE then "\\b"
    else if c == FORMFEED then "\\f"
    else if c == '\n' then "\\n"
    else if c == '\r' then "\\r"
    else if c == '\t' then "\\t"
    else if c as int < 32 then "\\u00" + [HexDigit(c as int / 16), HexDigit(c as int % 16)]
    else [c]
  }

  function Escape(s: string): string {
    if s == "" then "" else EscapeChar(s[0]) + Escape(s[1..])
  }

  function Quote(s: string): string {
    "\"" + Escape(s) + "\""
  }

  function Tabs(n: nat): string {
    seq(n, i => '\t')
  }

  /** The text of an item; `depth` counts the containers around it and matters to formatted text only. */
  function Render(j: Json, format: bool, depth: nat): string
    decreases j, 0
  {
    match j
    case Invalid => ""
    case Null => "null"
    case False => "false"
    case True => "true"
    case Number(d) => IntText(ValueInt(d))
    case Str(s) => Quote(s)
    case Arr(es) => "[" + RenderElems(es, format, depth + 1) + "]"
    case Obj(ms) => Open(format) + RenderMembers(ms, format, depth + 1) + Close(format, depth)
  }

  function Open(format: bool): string {
    if format then "{\n" else "{"
  }

  function Close(format: bool, depth: nat): string {
    (if format then Tabs(depth) else "") + "}"
  }

  /** What stands between two array elements. */
  function Separator(format: bool): string {
    if format then ", " else ","
  }

  function RenderElems(es: seq<Json>, format: bool, depth: nat): string
    decreases es, 0
  {
    if es == [] then ""
    else Render(es[0], format, depth) + ElemEnd(|es|, format) + RenderElems(es[1..], format, depth)
  }

  /** Behind an element with `n` elements left, itself included. */
  function ElemEnd(n: nat, format: bool): string {
    if n > 1 then Separator(format) else ""
  }

  function RenderMember(m: Member<Json>, last: bool, format: bool, depth: nat): string
    decreases m, 0
  {
    Indent(format, depth) + Quote(m.key) + Colon(format) + Render(m.value, format, depth) + MemberEnd(last, format)
  }

  function Indent(format: bool, depth: nat): string {
    if format then Tabs(depth) else ""
  }

  function Colon(format: bool): string {
    if format then ":\t" else ":"
  }

  function MemberEnd(last: bool, format: bool): string {
    (if last then "" else ",") + (if format then "\n" else "")
  }

  function RenderMembers(ms: seq<Member<Json>>, format: bool, depth: nat): string
    decreases ms, 0
  {
    if ms == [] then ""
    else RenderMember(ms[0], |ms| == 1, format, depth) + RenderMembers(ms[1..], format, depth)
  }

  // ---- the text holds no terminator ----

  lemma NulFreeConcat(a: string, b: string)
    requires NulFree(a) && NulFree(b)
    ensures NulFree(a + b)
  {
  }

  lemma {:induction false} EscapeNulFree(s: string)
    requires NulFree(s)
    ensures NulFree(Escape(s))
  {
    if s == "" {
    } else {
      EscapeCharNulFree(s[0]);
      EscapeNulFree(s[1..]);
      NulFreeConcat(EscapeChar(s[0]), Escape(s[1..]));
    }
  }

  lemma EscapeCharNulFree(c: char)
    requires c != NUL
    ensures NulFree(EscapeChar(c))
  {
  }

  lemma QuoteNulFree(s: string)
    requires NulFree(s)
    ensures NulFree(Quote(s))
  {
    EscapeNulFree(s);
  }

  lemma IntNulFree(n: int)
    ensures NulFree(IntText(n))
  {
    DigitsInRange(if n < 0 then -n else n);
  }

  lemma {:induction false} RenderNulFree(j: Json, format: bool, depth: nat)
    requires Printable(j)
    ensures NulFree(Render(j, format, depth))
    decreases j, 0
  {
    match j {
      case Number(d) => IntNulFree(ValueInt(d));
      case Str(s) => QuoteNulFree(s);
      case Arr(es) => ElemsNulFree(es, format, depth + 1);
      case Obj(ms) => MembersNulFree(ms, format, depth + 1);
      case _ =>
    }
  }

  lemma {:induction false} ElemsNulFree(es: seq<Json>, format: bool, depth: nat)
    requires forall i :: 0 <= i < |es| ==> Printable(es[i])
    ensures NulFree(RenderElems(es, format, depth))
    decreases es, 0
  {
    if es == [] {
    } else {
      RenderNulFree(es[0], format, depth);
      ElemsNulFree(es[1..], format, depth);
    }
  }

  lemma {:induction false} MembersNulFree(ms: seq<Member<Json>>, format: bool, depth: nat)
    requires forall i :: 0 <= i < |ms| ==> NulFree(ms[i].key) && Printable(ms[i].value)
    ensures NulFree(RenderMembers(ms, format, depth))
    decreases ms, 0
  {
    if ms == [] {
    } else {
      QuoteNulFree(ms[0].key);
      RenderNulFree(ms[0].value, format, depth);
      MembersNulFree(ms[1..], format, depth);
    }
  }

  // ---- the text grown from the left, as the loops produce it ----

  lemma {:induction false} EscapeSnoc(s: string, i: nat)
    requires i < |s|
    ensures Escape(s[..i + 1]) == Escape(s[..i]) + EscapeChar(s[i])
    decreases i
  {
    if i > 0 {
      assert s[..i + 1][1..] == s[1..][..i];
      assert s[..i][1..] == s[1..][..i - 1];
      EscapeSnoc(s[1..], i - 1);
      assert Escape(s[..i + 1]) == EscapeChar(s[0]) + Escape(s[1..][..i]);
    } else {
      assert s[..1] == [s[0]] && s[..1][1..] == "" && s[..0] == "";
    }
  }

  lemma {:induction false} EscapeGrows(s: string, i: nat)
    requires i <= |s|
    ensures |Escape(s[..i])| <= |Escape(s)|
    decreases |s| - i
  {
    if i < |s| {
      EscapeSnoc(s, i);
      EscapeGrows(s, i + 1);
    } else {
      assert s[..i] == s;
    }
  }
}
