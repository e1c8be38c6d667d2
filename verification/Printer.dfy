/** The printer: text goes into a byte buffer that grows on demand, or into one of fixed size. */
module Printer {
  import opened Text
  import opened Json
  import opened Rendering

  class PrintBuffer {
    var buffer: array<char>
    var offset: nat
    var depth: nat
    const noalloc: bool
    const format: bool

    constructor (buffer: array<char>, noalloc: bool, format: bool)
      ensures this.buffer == buffer && offset == 0 && depth == 0
      ensures this.noalloc == noalloc && this.format == format
    {
      this.buffer := buffer;
      this.offset, this.depth := 0, 0;
      this.noalloc, this.format := noalloc, format;
    }

    /** The place to write at lies inside the buffer; sizes are `int` as in the public functions. */
    ghost predicate Ready()
      reads this
    {
      buffer.Length <= INT_MAX && (offset < buffer.Length || offset == buffer.Length == 0)
    }

    /** The largest size the buffer can get. */
    ghost function Limit(): nat
      reads this
    {
      if noalloc then buffer.Length else INT_MAX
    }

    /** Behind what was there before stands `text`, terminated; the offset may not have reached its end yet. */
    ghost predicate Holds(base: string, text: string)
      reads this, buffer
    {
      && |base| + |text| < buffer.Length <= INT_MAX
      && buffer[..|base| + |text|] == base + text && buffer[|base| + |text|] == NUL
      && |base| <= offset <= |base| + |text|
    }

    /** `ensure`: room for `needed` more bytes and one more; growing doubles the need. */
    method Ensure(needed: nat) returns (ok: bool)
      requires Ready()
      modifies this`buffer
      ensures Ready() && Limit() == old(Limit()) && (buffer == old(buffer) || (!noalloc && fresh(buffer)))
      ensures ok <==> offset + needed + 1 <= Limit()
      ensures ok ==> offset + needed + 1 <= buffer.Length
      ensures buffer[..offset] == old(buffer[..offset])
    {
      if needed > INT_MAX {
        return false;
      }
      var total := needed + offset + 1;
      if total <= buffer.Length {
        return true;
      }
      if noalloc {
        return false;
      }
      var newsize;
      if total > INT_MAX / 2 {
        if total <= INT_MAX {
          newsize := INT_MAX;
        } else {
          return false;
        }
      } else {
        newsize := total * 2;
      }
      var newbuffer := new char[newsize];
      forall i | 0 <= i < buffer.Length {
        newbuffer[i] := buffer[i];
      }
      assert newbuffer[..offset] == buffer[..offset];
      buffer := newbuffer;
      return true;
    }

    /** Text written at a position; what stands behind it is left open. */
    method PutAt(o: nat, text: string)
      requires o + |text| <= buffer.Length
      modifies buffer
      ensures buffer[..o + |text|] == old(buffer[..o]) + text
    {
      var i := 0;
      while i < |text|
        invariant i <= |text|
        invariant buffer[..o + i] == old(buffer[..o]) + text[..i]
      {
        buffer[o + i] := text[i];
        assert buffer[..o + i + 1] == buffer[..o + i] + [text[i]];
        i := i + 1;
      }
      assert text[..i] == text;
    }

    /** `update_offset`: the offset moves to the terminator. */
    method UpdateOffset(ghost base: string, ghost text: string)
      requires Holds(base, text) && NulFree(text)
      modifies this`offset
      ensures Holds(base, text) && offset == |base| + |text|
    {
      ghost var end := |base| + |text|;
      assert forall i :: |base| <= i < end ==> buffer[i] == buffer[..end][i] == text[i - |base|];
      while buffer[offset] != NUL
        invariant |base| <= offset <= end
        decreases end - offset
      {
        offset := offset + 1;
      }
    }

    /** A literal, written with its terminator. */
    method PutLiteral(text: string) returns (ok: bool)
      requires Ready()
      modifies this`buffer, buffer
      ensures (buffer == old(buffer) || (!noalloc && fresh(buffer))) && Limit() == old(Limit())
      ensures ok <==> old(offset) + |text| + 2 <= Limit()
      ensures ok ==> Holds(old(buffer[..offset]), text)
    {
      ghost var base := buffer[..offset];
      ok := Ensure(|text| + 1);
      if ok {
        PutAt(offset, text + [NUL]);
        assert base + (text + [NUL]) == base + text + [NUL];
        assert buffer[..offset + |text|] == buffer[..offset + |text| + 1][..offset + |text|];
        assert buffer[offset + |text|] == buffer[..offset + |text| + 1][offset + |text|];
      }
    }

    /** `print_number` for a 32-bit integer: the text is copied and the offset moves behind it. */
    method PrintNumber(d: real) returns (ok: bool)
      requires Ready() && IsInt32(d)
      modifies this`buffer, this`offset, buffer
      ensures (buffer == old(buffer) || (!noalloc && fresh(buffer))) && Limit() == old(Limit())
      ensures ok <==> old(offset) + |IntText(ValueInt(d))| + 2 <= Limit()
      ensures ok ==> Holds(old(buffer[..offset]), IntText(ValueInt(d)))
    {
      var text := IntText(ValueInt(d));
      ok := PutLiteral(text);
      if ok {
        offset := offset + |text|;
      }
    }

    /** `print_string_ptr`: one pass counts the escapes, a second one writes. */
    method PrintString(s: string) returns (ok: bool)
      requires Ready()
      modifies this`buffer, buffer
      ensures (buffer == old(buffer) || (!noalloc && fresh(buffer))) && Limit() == old(Limit())
      ensures ok <==> old(offset) + |Quote(s)| + 2 <= Limit()
      ensures ok ==> Holds(old(buffer[..offset]), Quote(s))
    {
      ghost var base := buffer[..offset];
      var escapes := CountEscapes(s);
      var outputLength := |s| + escapes;
      ok := Ensure(outputLength + 3);
      if !ok {
        return;
      }
      if escapes == 0 {
        NoEscapes(s);
        PutAt(offset, "\"" + s + "\"" + [NUL]);
      } else {
        PutEscaped(s);
      }
      assert buffer[..offset + |Quote(s)| + 1] == base + (Quote(s) + [NUL]);
      Terminated(base, Quote(s));
    }

    lemma Terminated(base: string, text: string)
      requires |base| + |text| < buffer.Length <= INT_MAX && offset == |base|
      requires buffer[..|base| + |text| + 1] == base + (text + [NUL])
      ensures Holds(base, text)
    {
      var n := |base| + |text|;
      assert buffer[..n] == buffer[..n + 1][..n];
      assert buffer[n] == buffer[..n + 1][n];
    }

    /** The second pass; the closing quote and the terminator go behind it. */
    method PutEscaped(s: string)
      requires offset + |Quote(s)| < buffer.Length
      modifies buffer
      ensures buffer[..offset + |Quote(s)| + 1] == old(buffer[..offset]) + (Quote(s) + [NUL])
    {
      hide Escape;
      ghost var base := buffer[..offset];
      buffer[offset] := '\"';
      assert buffer[..offset + 1] == base + "\"";
      var o := PutEscapedBytes(offset + 1, s);
      PutClosing(o);
      assert base + "\"" + Escape(s) + ['\"', NUL] == base + (Quote(s) + [NUL]);
    }

    method PutClosing(o: nat)
      requires o + 2 <= buffer.Length
      modifies buffer
      ensures buffer[..o + 2] == old(buffer[..o]) + ['\"', NUL]
    {
      buffer[o] := '\"';
      buffer[o + 1] := NUL;
    }

    method PutEscapedBytes(start: nat, s: string) returns (o: nat)
      requires start + |Escape(s)| <= buffer.Length
      modifies buffer
      ensures o == start + |Escape(s)| && buffer[..o] == old(buffer[..start]) + Escape(s)
    {
      ghost var base := buffer[..start];
      o := start;
      assert Escape(s[..0]) == "";
      hide Escape;
      hide EscapeChar;
      for i := 0 to |s|
        invariant o == start + |Escape(s[..i])| <= start + |Escape(s)|
        invariant buffer[..o] == base + Escape(s[..i])
      {
        EscapeStep(s, i);
        Associate(base, Escape(s[..i]), EscapeChar(s[i]));
        o := PutEscapedChar(o, s[i]);
      }
      assert s[..|s|] == s;
    }

    method PutEscapedChar(o: nat, c: char) returns (next: nat)
      requires o + |EscapeChar(c)| <= buffer.Length
      modifies buffer
      ensures next == o + |EscapeChar(c)|
      ensures buffer[..next] == old(buffer[..o]) + EscapeChar(c)
    {
      PlainByte(c);
      hide EscapeChar;
      if c as int > 31 && c != '\"' && c != '\\' {
        PutAt(o, [c]);
        next := o + 1;
      } else {
        ghost var before := buffer[..o];
        var tail := AfterBackslash(c);
        PutAt(o, "\\");
        PutAt(o + 1, tail);
        next := o + 1 + |tail|;
        assert before + "\\" + tail == before + ("\\" + tail);
      }
    }

    /** The switch over the bytes that need escaping. */
    method AfterBackslash(c: char) returns (tail: string)
      requires c as int <= 31 || c == '\"' || c == '\\'
      ensures "\\" + tail == EscapeChar(c)
    {
      if c == '\\' {
        tail := "\\";
      } else if c == '\"' {
        tail := "\"";
      } else if c == BACKSPACE {
        tail := "b";
      } else if c == FORMFEED {
        tail := "f";
      } else if c == '\n' {
        tail := "n";
      } else if c == '\r' {
        tail := "r";
      } else if c == '\t' {
        tail := "t";
      } else {
        tail := "u00" + [HexDigit(c as int / 16), HexDigit(c as int % 16)];
      }
    }

    /** `print_value`. */
    method PrintValue(j: Json) returns (ok: bool)
      requires Ready() && Printable(j)
      modifies this`buffer, this`offset, this`depth, buffer
      ensures (buffer == old(buffer) || (!noalloc && fresh(buffer))) && Limit() == old(Limit())
      ensures ok <==> old(offset) + |Render(j, format, old(depth))| + 2 <= Limit()
      ensures ok ==> Holds(old(buffer[..offset]), Render(j, format, old(depth))) && depth == old(depth)
      decreases j, 1
    {
      match j {
        case Null => ok := PutLiteral("null");
        case False => ok := PutLiteral("false");
        case True => ok := PutLiteral("true");
        case Number(d) => ok := PrintNumber(d);
        case Str(s) => ok := PrintString(s);
        case Arr(es) => ok := PrintArray(j);
        case Obj(ms) => ok := PrintObject(j);
      }
    }

    /** A child and the `update_offset` behind it. */
    method PrintChild(j: Json) returns (ok: bool)
      requires Ready() && Printable(j)
      modifies this`buffer, this`offset, this`depth, buffer
      ensures (buffer == old(buffer) || (!noalloc && fresh(buffer))) && Limit() == old(Limit())
      ensures ok <==> old(offset) + |Render(j, format, old(depth))| + 2 <= Limit()
      ensures ok ==> Ready() && depth == old(depth)
      ensures ok ==> buffer[..offset] == old(buffer[..offset]) + Render(j, format, old(depth))
      decreases j, 2
    {
      ghost var base, text := buffer[..offset], Render(j, format, depth);
      RenderNulFree(j, format, depth);
      ok := PrintValue(j);
      if ok {
        UpdateOffset(base, text);
      }
    }

    /** Text behind the offset, and the offset behind the text; `slack` is what the code asks for too much. */
    method Append(text: string, slack: nat) returns (ok: bool)
      requires Ready() && 1 <= |text| + slack
      modifies this`buffer, this`offset, buffer
      ensures (buffer == old(buffer) || (!noalloc && fresh(buffer))) && Limit() == old(Limit())
      ensures ok <==> old(offset) + |text| + slack + 1 <= Limit()
      ensures ok ==> Ready() && buffer[..offset] == old(buffer[..offset]) + text && offset == old(offset) + |text|
    {
      ok := Ensure(|text| + slack);
      if ok {
        PutAt(offset, text);
        offset := offset + |text|;
      }
    }

    /** Text held behind `base + mid` is held behind `base`. */
    lemma HoldsFrom(base: string, mid: string, last: string)
      requires Holds(base + mid, last)
      ensures Holds(base, mid + last)
    {
      assert base + mid + last == base + (mid + last);
    }

    /** `print_array`. The closing bracket is written but not counted. */
    method PrintArray(j: Json) returns (ok: bool)
      requires Ready() && j.Arr? && Printable(j)
      modifies this`buffer, this`offset, this`depth, buffer
      ensures (buffer == old(buffer) || (!noalloc && fresh(buffer))) && Limit() == old(Limit())
      ensures ok <==> old(offset) + |Render(j, format, old(depth))| + 2 <= Limit()
      ensures ok ==> Holds(old(buffer[..offset]), Render(j, format, old(depth))) && depth == old(depth)
      decreases j, 0
    {
      ghost var base, text := buffer[..offset], "[" + RenderElems(j.elems, format, depth + 1);
      assert Render(j, format, depth) == text + "]";
      hide Render;
      hide RenderElems;
      hide Printable;
      ok := PrintOpenElems(j);
      if ok {
        assert buffer[..offset] == base + text;
        ok := PutLiteral("]");
        depth := depth - 1;
        if ok {
          HoldsFrom(base, text, "]");
        }
      }
    }

    /** The opening bracket and the elements. */
    method PrintOpenElems(j: Json) returns (ok: bool)
      requires Ready() && j.Arr? && Printable(j)
      modifies this`buffer, this`offset, this`depth, buffer
      ensures (buffer == old(buffer) || (!noalloc && fresh(buffer))) && Limit() == old(Limit())
      ensures !ok ==> old(offset) + |"[" + RenderElems(j.elems, format, old(depth) + 1)| + 2 > Limit()
      ensures ok ==> Ready() && depth == old(depth) + 1
      ensures ok ==> buffer[..offset] == old(buffer[..offset]) + ("[" + RenderElems(j.elems, format, old(depth) + 1))
      decreases j, -1
    {
      hide Render;
      hide RenderElems;
      ok := Append("[", 0);
      if ok {
        depth := depth + 1;
        ok := PrintElems(j.elems);
      }
    }

    method PrintElems(es: seq<Json>) returns (ok: bool)
      requires Ready() && forall i :: 0 <= i < |es| ==> Printable(es[i])
      modifies this`buffer, this`offset, this`depth, buffer
      ensures (buffer == old(buffer) || (!noalloc && fresh(buffer))) && Limit() == old(Limit())
      ensures !ok ==> old(offset) + |RenderElems(es, format, old(depth))| + 2 > Limit()
      ensures ok ==> Ready() && depth == old(depth)
      ensures ok ==> buffer[..offset] == old(buffer[..offset]) + RenderElems(es, format, old(depth))
      decreases es, 0
    {
      hide Render;
      hide Printable;
      ghost var goal := buffer[..offset] + RenderElems(es, format, depth);
      var i := 0;
      assert es[0..] == es;
      while i < |es|
        invariant i <= |es| && Ready() && depth == old(depth)
        invariant (buffer == old(buffer) || (!noalloc && fresh(buffer))) && Limit() == old(Limit())
        invariant buffer[..offset] + RenderElems(es[i..], format, depth) == goal
      {
        ghost var before := buffer[..offset];
        ghost var text := Render(es[i], format, depth) + ElemEnd(|es| - i, format);
        ghost var rest := RenderElems(es[i + 1..], format, depth);
        assert es[i..][0] == es[i] && es[i..][1..] == es[i + 1..];
        assert goal == before + (text + rest);
        Associate(before, text, rest);
        ok := PrintElem(es[i], |es| - i);
        if !ok {
          return;
        }
        i := i + 1;
      }
      ok := true;
    }

    method PrintElem(j: Json, left: nat) returns (ok: bool)
      requires Ready() && Printable(j) && left > 0
      modifies this`buffer, this`offset, this`depth, buffer
      ensures (buffer == old(buffer) || (!noalloc && fresh(buffer))) && Limit() == old(Limit())
      ensures !ok ==> old(offset) + |Render(j, format, old(depth))| + |ElemEnd(left, format)| + 2 > Limit()
      ensures ok ==> Ready() && depth == old(depth)
      ensures ok ==> buffer[..offset] == old(buffer[..offset]) + (Render(j, format, old(depth)) + ElemEnd(left, format))
      decreases j, 3
    {
      ok := PrintChild(j);
      if ok && left > 1 {
        ok := Append(Separator(format), 1);
      }
    }

    /** `print_object`. The closing text is written but not counted. */
    method PrintObject(j: Json) returns (ok: bool)
      requires Ready() && j.Obj? && Printable(j)
      modifies this`buffer, this`offset, this`depth, buffer
      ensures (buffer == old(buffer) || (!noalloc && fresh(buffer))) && Limit() == old(Limit())
      ensures ok <==> old(offset) + |Render(j, format, old(depth))| + 2 <= Limit()
      ensures ok ==> Holds(old(buffer[..offset]), Render(j, format, old(depth))) && depth == old(depth)
      decreases j, 0
    {
      ghost var base, text := buffer[..offset], Open(format) + RenderMembers(j.members, format, depth + 1);
      assert Render(j, format, depth) == text + Close(format, depth);
      hide Render;
      hide RenderMembers;
      hide Printable;
      hide Open;
      hide Close;
      ok := PrintOpenMembers(j);
      if ok {
        ok := PrintClose(base, text);
      }
    }

    /** The closing text of a container whose text so far is `text`, written but not counted. */
    method PrintClose(ghost base: string, ghost text: string) returns (ok: bool)
      requires Ready() && depth > 0 && buffer[..offset] == base + text
      modifies this`buffer, this`depth, buffer
      ensures (buffer == old(buffer) || (!noalloc && fresh(buffer))) && Limit() == old(Limit())
      ensures ok <==> offset + |Close(format, old(depth) - 1)| + 2 <= Limit()
      ensures ok ==> Holds(base, text + Close(format, depth)) && depth == old(depth) - 1
    {
      hide Close;
      ok := PutLiteral(Close(format, depth - 1));
      depth := depth - 1;
      if ok {
        HoldsFrom(base, text, Close(format, depth));
      }
    }

    /** The opening brace and the members. */
    method PrintOpenMembers(j: Json) returns (ok: bool)
      requires Ready() && j.Obj? && Printable(j)
      modifies this`buffer, this`offset, this`depth, buffer
      ensures (buffer == old(buffer) || (!noalloc && fresh(buffer))) && Limit() == old(Limit())
      ensures !ok ==> old(offset) + |Open(format) + RenderMembers(j.members, format, old(depth) + 1)| + 2 > Limit()
      ensures ok ==> Ready() && depth == old(depth) + 1
      ensures ok ==>
        var text := Open(format) + RenderMembers(j.members, format, old(depth) + 1);
        buffer[..offset] == old(buffer[..offset]) + text
      decreases j, -1
    {
      hide Render;
      hide RenderMembers;
      ok := Append(Open(format), 1);
      if ok {
        depth := depth + 1;
        ok := PrintMembers(j.members);
      }
    }

    method PrintMembers(ms: seq<Member<Json>>) returns (ok: bool)
      requires Ready() && depth > 0 && forall i :: 0 <= i < |ms| ==> NulFree(ms[i].key) && Printable(ms[i].value)
      modifies this`buffer, this`offset, this`depth, buffer
      ensures (buffer == old(buffer) || (!noalloc && fresh(buffer))) && Limit() == old(Limit())
      ensures !ok ==> old(offset) + |RenderMembers(ms, format, old(depth))| + 2 > Limit()
      ensures ok ==> Ready() && depth == old(depth)
      ensures ok ==> buffer[..offset] == old(buffer[..offset]) + RenderMembers(ms, format, old(depth))
      decreases ms, 0
    {
      hide Render;
      hide RenderMember;
      hide Printable;
      ghost var goal := buffer[..offset] + RenderMembers(ms, format, depth);
      var i := 0;
      assert ms[0..] == ms;
      while i < |ms|
        invariant i <= |ms| && Ready() && depth == old(depth)
        invariant (buffer == old(buffer) || (!noalloc && fresh(buffer))) && Limit() == old(Limit())
        invariant buffer[..offset] + RenderMembers(ms[i..], format, depth) == goal
      {
        ghost var before := buffer[..offset];
        ghost var text := RenderMember(ms[i], i + 1 == |ms|, format, depth);
        ghost var rest := RenderMembers(ms[i + 1..], format, depth);
        assert ms[i..][0] == ms[i] && ms[i..][1..] == ms[i + 1..];
        assert goal == before + (text + rest);
        Associate(before, text, rest);
        ok := PrintMember(ms[i], i + 1 == |ms|);
        if !ok {
          return;
        }
        i := i + 1;
      }
      ok := true;
    }

    method PrintMember(m: Member<Json>, last: bool) returns (ok: bool)
      requires Ready() && NulFree(m.key) && Printable(m.value) && depth > 0
      modifies this`buffer, this`offset, this`depth, buffer
      ensures (buffer == old(buffer) || (!noalloc && fresh(buffer))) && Limit() == old(Limit())
      ensures !ok ==> old(offset) + |RenderMember(m, last, format, old(depth))| + 2 > Limit()
      ensures ok ==> Ready() && depth == old(depth)
      ensures ok ==> buffer[..offset] == old(buffer[..offset]) + RenderMember(m, last, format, old(depth))
      decreases m, 0
    {
      hide Render;
      hide Quote;
      hide Printable;
      hide Indent;
      hide Colon;
      hide MemberEnd;
      ok := PrintKey(m.key);
      if !ok {
        return;
      }
      ok := PrintChild(m.value);
      if !ok {
        return;
      }
      ok := Append(MemberEnd(last, format), 1);
    }

    /** Indentation, name and colon. */
    method PrintKey(k: string) returns (ok: bool)
      requires Ready() && NulFree(k) && depth > 0
      modifies this`buffer, this`offset, buffer
      ensures (buffer == old(buffer) || (!noalloc && fresh(buffer))) && Limit() == old(Limit())
      ensures !ok ==> old(offset) + |Indent(format, depth) + Quote(k) + Colon(format)| + 1 > Limit()
      ensures ok ==> Ready()
      ensures ok ==> buffer[..offset] == old(buffer[..offset]) + (Indent(format, depth) + Quote(k) + Colon(format))
    {
      hide Quote;
      assert format ==> |Indent(format, depth)| == depth;
      if format {
        ok := Append(Tabs(depth), 0);
        if !ok {
          return;
        }
      }
      ok := PrintName(k);
      if ok {
        ok := Append(Colon(format), 0);
      }
    }

    /** A name and the `update_offset` behind it. */
    method PrintName(k: string) returns (ok: bool)
      requires Ready() && NulFree(k)
      modifies this`buffer, this`offset, buffer
      ensures (buffer == old(buffer) || (!noalloc && fresh(buffer))) && Limit() == old(Limit())
      ensures ok <==> old(offset) + |Quote(k)| + 2 <= Limit()
      ensures ok ==> Ready() && offset == old(offset) + |Quote(k)|
      ensures ok ==> buffer[..offset] == old(buffer[..offset]) + Quote(k)
    {
      hide Quote;
      ghost var base := buffer[..offset];
      QuoteNulFree(k);
      ok := PrintString(k);
      if ok {
        UpdateOffset(base, Quote(k));
      }
    }
  }

  lemma EscapeStep(s: string, i: nat)
    requires i < |s|
    ensures Escape(s[..i + 1]) == Escape(s[..i]) + EscapeChar(s[i])
    ensures |Escape(s[..i])| + |EscapeChar(s[i])| <= |Escape(s)|
  {
    hide Escape;
    hide EscapeChar;
    EscapeSnoc(s, i);
    EscapeGrows(s, i + 1);
  }

  lemma PlainByte(c: char)
    ensures c as int > 31 && c != '\"' && c != '\\' ==> EscapeChar(c) == [c]
  {
  }

  /** The first pass over a string: how many bytes the escapes add. */
  method CountEscapes(s: string) returns (n: nat)
    ensures |s| + n == |Escape(s)|
    ensures n == 0 <==> forall i :: 0 <= i < |s| ==> |EscapeChar(s[i])| == 1
  {
    n := 0;
    assert Escape(s[..0]) == "";
    for i := 0 to |s|
      invariant i + n == |Escape(s[..i])|
      invariant n == 0 <==> forall k :: 0 <= k < i ==> |EscapeChar(s[k])| == 1
    {
      EscapeSnoc(s, i);
      var c := s[i];
      if c == '\"' || c == '\\' || c == BACKSPACE || c == FORMFEED || c == '\n' || c == '\r' || c == '\t' {
        n := n + 1;
      } else if c as int < 32 {
        n := n + 5;
      }
    }
    assert s[..|s|] == s;
  }

  lemma {:induction false} NoEscapes(s: string)
    requires forall i :: 0 <= i < |s| ==> |EscapeChar(s[i])| == 1
    ensures Escape(s) == s
  {
    if s == "" {
    } else {
      NoEscapes(s[1..]);
      assert EscapeChar(s[0]) == [s[0]];
      assert s == [s[0]] + s[1..];
    }
  }

  // ---- the public entry points ----

  /** `cJSON_PrintPreallocated`: it succeeds exactly when there are two bytes beyond the text. */
  method PrintPreallocated(j: Json, buffer: array<char>, format: bool) returns (ok: bool)
    requires Printable(j) && buffer.Length <= INT_MAX
    modifies buffer
    ensures var text := Render(j, format, 0);
      && (ok <==> |text| + 2 <= buffer.Length)
      && (ok ==> buffer[..|text|] == text && buffer[|text|] == NUL)
  {
    hide Render;
    hide Printable;
    var p := new PrintBuffer(buffer, true, format);
    ghost var text := Render(j, format, 0);
    assert buffer[..0] == "";
    ok := p.PrintValue(j);
    assert "" + text == text;
  }

  /** `cJSON_Print` and `cJSON_PrintUnformatted`: the whole text, unless it is too long for an `int`. */
  method Print(j: Json, format: bool) returns (printed: Option<string>)
    requires Printable(j)
    ensures printed == if |Render(j, format, 0)| + 2 <= INT_MAX then Some(Render(j, format, 0)) else None
  {
    hide Render;
    hide Printable;
    var buffer := new char[256];
    var p := new PrintBuffer(buffer, false, format);
    assert buffer[..0] == "";
    var ok := p.PrintChild(j);
    if !ok {
      return None;
    }
    assert "" + Render(j, format, 0) == Render(j, format, 0);
    printed := Some(p.buffer[..p.offset]);
  }
}
