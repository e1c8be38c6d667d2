/** The parser as it runs: a moving offset, a depth counter, an output buffer for each string, and new
    items that are linked into lists and filled in as their text is read. */
module ParseBuffer {
  import opened Text
  import opened Json
  import opened StringCodec
  import opened Parser
  import opened SiblingList
  import opened ItemTree

  /** Success and offset of a method next to the outcome the specification names. */
  ghost predicate Agrees<T>(ok: bool, offset: nat, p: Parsed<T>) {
    match p
    case Ok(_, next) => ok && offset == next
    case Err(at) => !ok && offset == at
  }

  class Buffer {
    const content: string
    var offset: nat
    var depth: nat

    constructor (content: string)
      ensures this.content == content && offset == 0 && depth == 0
    {
      this.content := content;
      offset, depth := 0, 0;
    }

    predicate CanAccess(i: nat)
      reads this
    {
      offset + i < |content|
    }

    method SkipWhitespace()
      requires offset <= |content|
      modifies this`offset
      ensures offset == SkipSpace(content, old(offset))
    {
      if !CanAccess(0) {
        return;
      }
      ghost var e := FirstVisible(content, offset);
      while CanAccess(0) && content[offset] <= ' '
        invariant offset <= |content| && FirstVisible(content, offset) == e
        decreases |content| - offset
      {
        offset := offset + 1;
      }
      if offset == |content| {
        offset := offset - 1;
      }
    }

    method SkipByteOrderMark()
      requires offset == 0
      modifies this`offset
      ensures offset == SkipBom(content)
    {
      if CanAccess(4) && content[..3] == BOM {
        offset := offset + 3;
      }
    }

    /** `parse_number`: the number bytes are copied, `strtod` reads the copy. */
    method Number(item: Item) returns (ok: bool)
      requires CanAccess(0)
      modifies this`offset, item`kind, item`number
      ensures var p := ParseNumber(content, old(offset));
        Agrees(ok, offset, p) && (ok ==> item.kind == NUMBER && p.value == Json.Number(item.number))
    {
      hide Strtod;
      hide NumberRun;
      var copy := new char[64];
      var i := CopyNumber(copy);
      var (n, d) := Strtod(copy[..i]);
      if n == 0 {
        return false;
      }
      item.number := d;
      item.kind := NUMBER;
      offset := offset + n;
      ok := true;
    }

    /** One byte of the copy is left for the terminator. */
    method CopyNumber(copy: array<char>) returns (i: nat)
      requires CanAccess(0) && copy.Length > 0
      modifies copy
      ensures i == NumberRun(content, offset, copy.Length - 1) && i < copy.Length
        && copy[..i] == content[offset..offset + i]
    {
      hide NumberChar;
      i := 0;
      while i < copy.Length - 1 && CanAccess(i) && NumberChar(content[offset + i])
        invariant i < copy.Length && offset + i <= |content|
        invariant copy[..i] == content[offset..offset + i]
        invariant NumberRun(content, offset, copy.Length - 1) == i + NumberRun(content, offset + i, copy.Length - 1 - i)
      {
        copy[i] := content[offset + i];
        i := i + 1;
      }
    }

    // ---- strings ----

    /** Pass one: the closing quote and the number of escapes. */
    method ScanLiteral(start: nat) returns (r: Option<(nat, nat)>)
      ensures r == ScanString(content, start)
    {
      var end, skipped := start, 0;
      ghost var whole := ScanString(content, start);
      while end < |content| && content[end] != '\"'
        invariant whole == CountOn(ScanString(content, end), skipped)
        decreases |content| - end
      {
        if content[end] == '\\' {
          if end + 1 >= |content| {
            return None;
          }
          skipped := skipped + 1;
          end := end + 1;
        }
        end := end + 1;
      }
      r := if end >= |content| then None else Some((end, skipped));
    }

    /** Pass two: the bytes go to an output sized by pass one. */
    method DecodeLiteral(start: nat, end: nat, output: array<char>) returns (p: nat, length: Option<nat>)
      requires end < |content| && Units(content, start, end) <= output.Length
      modifies output
      ensures match Decode(content, start, end)
        case Refused(at) => length == None && p == at
        case Bytes(text) => length == Some(|text|) && |text| <= output.Length && output[..|text|] == text
    {
      hide Decode;
      hide Units;
      p := start;
      var o := 0;
      ghost var whole := Decode(content, start, end);
      PrependNothing(whole);
      while p < end
        invariant o + Units(content, p, end) <= output.Length
        invariant whole == Prepend(output[..o], Decode(content, p, end))
        decreases |content| - p
      {
        ghost var done, at := output[..o], p;
        var ok;
        ok, p, o := DecodeStep(p, end, output, o);
        if !ok {
          return p, None;
        }
        assert output[..o] == done + output[|done|..o];
        PrependTwice(done, output[|done|..o], Decode(content, p, end));
      }
      DecodeEnd(content, p, end);
      length := Some(o);
    }

    /** One byte or one escape. The bound of pass one leaves room for it. */
    method DecodeStep(p: nat, end: nat, output: array<char>, o: nat) returns (ok: bool, next: nat, last: nat)
      requires p < end < |content| && o + Units(content, p, end) <= output.Length
      modifies output
      ensures !ok ==> Decode(content, p, end) == Refused(p) && next == p
      ensures ok ==> p < next && o <= last && last + Units(content, next, end) <= output.Length
      ensures ok ==> output[..o] == old(output[..o])
      ensures ok ==> Decode(content, p, end) == Prepend(output[o..last], Decode(content, next, end))
    {
      hide Units;
      hide Utf16Literal;
      StepUnits(content, p, end);
      ok, next, last := true, p, o;
      if content[p] != '\\' {
        output[o] := content[p];
        assert output[o..o + 1] == [content[p]];
        next, last := p + 1, o + 1;
      } else if content[p + 1] == 'u' {
        var n;
        n, last := WriteLiteral(p, end, output, o);
        ok := n != 0;
        next := p + n;
      } else {
        var c := ShortEscape(content[p + 1]);
        match c {
          case None =>
            ok := false;
          case Some(b) =>
            output[o] := b;
            assert output[o..o + 1] == [b];
            next, last := p + 2, o + 1;
        }
      }
    }

    /** `utf16_literal_to_utf8`: zero for a literal that is refused. */
    method WriteLiteral(p: nat, end: nat, output: array<char>, o: nat) returns (n: nat, last: nat)
      requires p < end < |content|
      requires Utf16Literal(content, p, end).Some? ==> o + |Utf16Literal(content, p, end).value.1| <= output.Length
      modifies output
      ensures match Utf16Literal(content, p, end)
        case None => n == 0
        case Some((k, bytes)) =>
          n == k && last == o + |bytes| && output[..o] == old(output[..o]) && output[o..last] == bytes
    {
      n, last := 0, o;
      if end - p < 6 {
        return;
      }
      var first := ParseHex4(content[p + 2..p + 6]);
      if 0xDC00 <= first <= 0xDFFF {
        return;
      }
      var codepoint, length := first, 6;
      if 0xD800 <= first <= 0xDBFF {
        if end - (p + 6) < 6 || content[p + 6] != '\\' || content[p + 7] != 'u' {
          return;
        }
        var second := ParseHex4(content[p + 8..p + 12]);
        if second < 0xDC00 || second > 0xDFFF {
          return;
        }
        codepoint, length := PairCodepoint(first, second), 12;
      }
      n := length;
      last := WriteUtf8(codepoint, output, o);
    }

    /** The bytes of a code point, written from the last one back to the first. */
    method WriteUtf8(codepoint: nat, output: array<char>, o: nat) returns (last: nat)
      requires codepoint <= MAX_CODEPOINT && o + |Utf8(codepoint)| <= output.Length
      modifies output
      ensures last == o + |Utf8(codepoint)| && output[..o] == old(output[..o]) && output[o..last] == Utf8(codepoint)
    {
      var length, mark := ChooseLength(codepoint);
      Utf8Shape(codepoint);
      hide Utf8;
      hide Utf8Length;
      hide Mark;
      var rest := WriteLowBytes(codepoint, length, output, o);
      output[o] := Byte(mark + rest);
      assert output[o..o + length] == [output[o]] + output[o + 1..o + length];
      last := o + length;
    }

    method ChooseLength(codepoint: nat) returns (length: nat, mark: nat)
      ensures length == Utf8Length(codepoint) && mark == Mark(length)
    {
      length, mark := 1, 0;
      if codepoint >= 0x10000 {
        length, mark := 4, 0xF0;
      } else if codepoint >= 0x800 {
        length, mark := 3, 0xE0;
      } else if codepoint >= 0x80 {
        length, mark := 2, 0xC0;
      }
    }

    /** The continuation bytes, and what is left for the first byte. */
    method WriteLowBytes(codepoint: nat, length: nat, output: array<char>, o: nat) returns (rest: nat)
      requires 0 < length && o + length <= output.Length
      modifies output
      ensures rest == Shifted(codepoint, length - 1) && output[..o] == old(output[..o])
      ensures output[o + 1..o + length] == LowBytes(codepoint, length - 1)
    {
      var position := length - 1;
      rest := codepoint;
      while position > 0
        invariant 0 <= position < length
        invariant rest == Shifted(codepoint, length - 1 - position)
        invariant output[..o] == old(output[..o])
        invariant output[o + position + 1..o + length] == LowBytes(codepoint, length - 1 - position)
      {
        output[o + position] := Byte(0x80 + rest % 0x40);
        assert output[o + position..o + length] == [output[o + position]] + output[o + position + 1..o + length];
        rest := rest / 0x40;
        position := position - 1;
      }
    }

    /** `parse_string`. */
    method String(item: Item) returns (ok: bool)
      requires CanAccess(0)
      modifies this`offset, item`kind, item`text
      ensures var p := ParseString(content, old(offset));
        Agrees(ok, offset, p) && (ok ==> item.kind == STRING && item.text == Some(p.value))
    {
      var start := offset + 1;
      if content[offset] != '\"' {
        offset := start;
        return false;
      }
      var scanned := ScanLiteral(start);
      if scanned.None? {
        offset := start;
        return false;
      }
      var (end, skipped) := scanned.value;
      ScanUnits(content, start);
      var output := new char[end - offset - skipped + 1];
      var p, length := DecodeLiteral(start, end, output);
      if length.None? {
        offset := p;
        return false;
      }
      DecodedFits(content, start, end);
      output[length.value] := NUL;
      assert output[..length.value] == Decode(content, start, end).text;
      item.kind := STRING;
      item.text := Some(CString(output[..length.value]));
      offset := end + 1;
      ok := true;
    }

    // ---- values ----

    /** `parse_value`: the item becomes the root of a tree that holds the value. */
    method Value(item: Item) returns (ok: bool, ghost t: Shape)
      requires offset <= |content| && item.child == null
      modifies this`offset, this`depth, item`kind, item`text, item`number, item`child
      ensures Agrees(ok, offset, ParseValue(content, old(offset), old(depth)))
      ensures ok ==> depth == old(depth) && t.item == item && fresh(Nodes(t.kids))
      ensures ok ==> Tree(t) && Holds(t, ParseValue(content, old(offset), old(depth)).value)
      decreases |content| - offset, 4
    {
      hide ParseString;
      hide ParseNumber;
      hide ParseArray;
      hide ParseObject;
      ok, t := true, Shape(item, []);
      Childless(item);
      if Literal(content, offset, "null") {
        item.kind := NULL;
        offset := offset + 4;
      } else if Literal(content, offset, "false") {
        item.kind := FALSE;
        offset := offset + 5;
      } else if Literal(content, offset, "true") {
        item.kind := TRUE;
        offset := offset + 4;
      } else if CanAccess(0) && content[offset] == '\"' {
        ok := String(item);
      } else if CanAccess(0) && (content[offset] == '-' || IsDigit(content[offset])) {
        ok := Number(item);
      } else if CanAccess(0) && content[offset] == '[' {
        ok, t := Array(item);
      } else if CanAccess(0) && content[offset] == '{' {
        ok, t := Object(item);
      } else {
        ok := false;
      }
    }

    /** A value and the blanks behind it. */
    method TrimmedValue(item: Item) returns (ok: bool, ghost t: Shape)
      requires offset <= |content| && item.child == null
      modifies this`offset, this`depth, item`kind, item`text, item`number, item`child
      ensures Agrees(ok, offset, Trimmed(content, ParseValue(content, old(offset), old(depth))))
      ensures ok ==> depth == old(depth) && t.item == item && fresh(Nodes(t.kids)) && old(offset) < offset
      ensures ok ==> Tree(t) && Holds(t, ParseValue(content, old(offset), old(depth)).value)
      decreases |content| - offset, 5
    {
      hide ParseValue;
      hide SkipSpace;
      hide Tree;
      hide Holds;
      ok, t := Value(item);
      if ok {
        KidsAllocated(t.kids);
        AllAllocated(t);
        SkipWhitespace();
      }
    }

    /** `parse_array`. */
    method Array(item: Item) returns (ok: bool, ghost t: Shape)
      requires CanAccess(0) && content[offset] == '[' && item.child == null
      modifies this`offset, this`depth, item`kind, item`child
      ensures Agrees(ok, offset, ParseArray(content, old(offset), old(depth)))
      ensures ok ==> depth == old(depth) && t.item == item && fresh(Nodes(t.kids))
      ensures ok ==> Tree(t) && Holds(t, ParseArray(content, old(offset), old(depth)).value)
      decreases |content| - offset, 2
    {
      hide ParseElems;
      hide SkipSpace;
      hide Forest;
      hide Tree;
      hide Holds;
      hide HoldElems;
      hide Growing;
      ok, t := false, Shape(item, []);
      if depth >= NESTING_LIMIT {
        return;
      }
      depth := depth + 1;
      offset := offset + 1;
      SkipWhitespace();
      var head: Item?, last: Item? := null, null;
      ghost var us: seq<Shape>, es: seq<Json> := [], [];
      if CanAccess(0) && content[offset] == ']' {
        NothingGrown();
        offset := offset + 1;
      } else if !CanAccess(0) {
        offset := offset - 1;
        return;
      } else {
        offset := offset - 1;
        ok, head, last, us, es := Elems();
        if !ok {
          return;
        }
      }
      depth := depth - 1;
      KidsAllocated(us);
      CompleteArray(item, head, last, us, es);
      ok, t := true, Shape(item, us);
    }

    /** The loop over the elements, and the closing bracket behind them. */
    method Elems() returns (ok: bool, head: Item?, last: Item?, ghost us: seq<Shape>, ghost es: seq<Json>)
      requires CanAccess(0)
      modifies this`offset, this`depth
      ensures Agrees(ok, offset, ParseElems(content, old(offset), old(depth)))
      ensures ok ==> depth == old(depth) && es == ParseElems(content, old(offset), old(depth)).value
      ensures ok ==> fresh(Nodes(us)) && Forest(us) && HoldElems(us, es) && Growing(head, last, Roots(us))
      decreases |content| - offset, 1
    {
      hide ParseElems;
      hide ParseValue;
      hide SkipSpace;
      ghost var whole, d := ParseElems(content, offset, depth), depth;
      head, last, us, es := null, null, [], [];
      AfterNothing(whole);
      NothingGrown();
      while true
        invariant CanAccess(0) && old(offset) <= offset && depth == d
        invariant whole == After(es, ParseElems(content, offset, d))
        invariant fresh(Nodes(us)) && Forest(us) && HoldElems(us, es) && Growing(head, last, Roots(us))
        decreases |content| - offset
      {
        ghost var i := offset;
        ghost var v;
        ok, head, last, us, v := Elem(head, last, us, es);
        ElemsRound(content, i, d, es);
        if !ok {
          return;
        }
        es := es + [v];
        if !(CanAccess(0) && content[offset] == ',') {
          break;
        }
      }
      ok := false;
      if !CanAccess(0) || content[offset] != ']' {
        return;
      }
      offset := offset + 1;
      ok := true;
    }

    /** One round of the element loop: a new item is linked behind the others and then filled in. */
    method Elem(head: Item?, last: Item?, ghost us: seq<Shape>, ghost es: seq<Json>)
      returns (ok: bool, head': Item?, item: Item, ghost vs: seq<Shape>, ghost v: Json)
      requires CanAccess(0) && Forest(us) && HoldElems(us, es) && Growing(head, last, Roots(us))
      modifies this`offset, this`depth, Nodes(us)`next
      ensures var p := Trimmed(content, ParseValue(content, SkipSpace(content, old(offset) + 1), old(depth)));
        Agrees(ok, offset, p) && (ok ==> v == p.value)
      ensures ok ==> old(offset) < offset && depth == old(depth)
      ensures ok ==> Forest(vs) && HoldElems(vs, es + [v]) && Growing(head', item, Roots(vs))
      ensures ok ==> forall x :: x in Nodes(vs) ==> x in Nodes(us) || fresh(x)
      decreases |content| - offset, 0
    {
      hide ParseValue;
      hide SkipSpace;
      hide Forest;
      hide Tree;
      hide Holds;
      hide HoldElems;
      hide Growing;
      KidsAllocated(us);
      head', item := NewItem(head, last, us);
      KidsAllocated(us);
      assert Below(us) <= Nodes(us);
      offset := offset + 1;
      SkipWhitespace();
      ghost var t, at := Shape(item, []), offset;
      ok, t := TrimmedValue(item);
      vs, v := us, Null;
      if ok {
        v := ParseValue(content, at, depth).value;
        vs := us + [t];
        ElemBehind(us, es, t, v);
      }
    }

    /** `parse_object`. */
    method Object(item: Item) returns (ok: bool, ghost t: Shape)
      requires CanAccess(0) && content[offset] == '{' && item.child == null
      modifies this`offset, this`depth, item`kind, item`child
      ensures Agrees(ok, offset, ParseObject(content, old(offset), old(depth)))
      ensures ok ==> depth == old(depth) && t.item == item && fresh(Nodes(t.kids))
      ensures ok ==> Tree(t) && Holds(t, ParseObject(content, old(offset), old(depth)).value)
      decreases |content| - offset, 3
    {
      hide ParseMembers;
      hide SkipSpace;
      hide Forest;
      hide Tree;
      hide Holds;
      hide HoldMembers;
      hide Growing;
      ok, t := false, Shape(item, []);
      if depth >= NESTING_LIMIT {
        return;
      }
      depth := depth + 1;
      offset := offset + 1;
      SkipWhitespace();
      var head: Item?, last: Item? := null, null;
      ghost var us: seq<Shape>, ms: seq<Member<Json>> := [], [];
      if CanAccess(0) && content[offset] == '}' {
        NothingGrown();
        offset := offset + 1;
      } else if !CanAccess(0) {
        offset := offset - 1;
        return;
      } else {
        offset := offset - 1;
        ok, head, last, us, ms := Members();
        if !ok {
          return;
        }
      }
      depth := depth - 1;
      KidsAllocated(us);
      CompleteObject(item, head, last, us, ms);
      ok, t := true, Shape(item, us);
    }

    /** The loop over the members, and the closing brace behind them. */
    method Members() returns (ok: bool, head: Item?, last: Item?, ghost us: seq<Shape>, ghost ms: seq<Member<Json>>)
      requires CanAccess(0)
      modifies this`offset, this`depth
      ensures Agrees(ok, offset, ParseMembers(content, old(offset), old(depth)))
      ensures ok ==> depth == old(depth) && ms == ParseMembers(content, old(offset), old(depth)).value
      ensures ok ==> fresh(Nodes(us)) && Forest(us) && HoldMembers(us, ms) && Growing(head, last, Roots(us))
      decreases |content| - offset, 2
    {
      hide ParseMembers;
      hide ParseMember;
      hide SkipSpace;
      ghost var whole, d := ParseMembers(content, offset, depth), depth;
      head, last, us, ms := null, null, [], [];
      AfterNothing(whole);
      NothingGrown();
      while true
        invariant CanAccess(0) && old(offset) <= offset && depth == d
        invariant whole == After(ms, ParseMembers(content, offset, d))
        invariant fresh(Nodes(us)) && Forest(us) && HoldMembers(us, ms) && Growing(head, last, Roots(us))
        decreases |content| - offset
      {
        ghost var i := offset;
        ghost var m;
        ok, head, last, us, m := OneMember(head, last, us, ms);
        MembersRound(content, i, d, ms);
        if !ok {
          return;
        }
        ms := ms + [m];
        if !(CanAccess(0) && content[offset] == ',') {
          break;
        }
      }
      ok := false;
      if !CanAccess(0) || content[offset] != '}' {
        return;
      }
      offset := offset + 1;
      ok := true;
    }

    /** One round of the member loop: a new item is linked, then name, colon and value are read into it. */
    method OneMember(head: Item?, last: Item?, ghost us: seq<Shape>, ghost ms: seq<Member<Json>>)
      returns (ok: bool, head': Item?, item: Item, ghost vs: seq<Shape>, ghost m: Member<Json>)
      requires CanAccess(0) && Forest(us) && HoldMembers(us, ms) && Growing(head, last, Roots(us))
      modifies this`offset, this`depth, Nodes(us)`next
      ensures var p := Trimmed(content, ParseMember(content, old(offset), old(depth)));
        Agrees(ok, offset, p) && (ok ==> m == p.value)
      ensures ok ==> old(offset) < offset && depth == old(depth)
      ensures ok ==> Forest(vs) && HoldMembers(vs, ms + [m]) && Growing(head', item, Roots(vs))
      ensures ok ==> forall x :: x in Nodes(vs) ==> x in Nodes(us) || fresh(x)
      decreases |content| - offset, 1
    {
      hide ParseMember;
      hide SkipSpace;
      hide Forest;
      hide Tree;
      hide Holds;
      hide HoldMembers;
      hide Growing;
      KidsAllocated(us);
      head', item := NewItem(head, last, us);
      KidsAllocated(us);
      assert Below(us) <= Nodes(us);
      ghost var t;
      ok, t, m := MemberText(item);
      vs := us;
      if ok {
        vs := us + [t];
        MemberBehind(us, ms, t, m);
      }
    }

    /** The name, the colon, the value and the blanks behind it. */
    method MemberText(item: Item) returns (ok: bool, ghost t: Shape, ghost m: Member<Json>)
      requires CanAccess(0) && item.child == null
      modifies this`offset, this`depth, item`kind, item`text, item`number, item`child, item`name
      ensures var p := Trimmed(content, ParseMember(content, old(offset), old(depth)));
        Agrees(ok, offset, p) && (ok ==> m == p.value)
      ensures ok ==> depth == old(depth) && t.item == item && fresh(Nodes(t.kids)) && old(offset) < offset
      ensures ok ==> Tree(t) && Holds(t, m.value) && item.name == Some(m.key)
      decreases |content| - offset, 0
    {
      hide ParseValue;
      MemberByName(content, offset, depth);
      hide NameAt;
      hide ParseMember;
      hide SkipSpace;
      hide Tree;
      hide Holds;
      t, m := Shape(item, []), Member("", Null);
      ok := Name(item);
      if !ok {
        return;
      }
      ghost var at := offset;
      ok, t := TrimmedValue(item);
      if ok {
        m := Member(item.name.value, ParseValue(content, at, depth).value);
      }
    }

    /** The name, the colon, and the blanks up to the value. The name is read like a value and moved. */
    method Name(item: Item) returns (ok: bool)
      requires CanAccess(0)
      modifies this`offset, item`kind, item`text, item`name
      ensures var p := NameAt(content, old(offset));
        Agrees(ok, offset, p) && (ok ==> item.name == Some(p.value))
    {
      hide ParseString;
      hide SkipSpace;
      if !CanAccess(1) {
        return false;
      }
      offset := offset + 1;
      SkipWhitespace();
      ok := String(item);
      if !ok {
        return;
      }
      SkipWhitespace();
      item.name := item.text;
      item.text := None;
      if !CanAccess(0) || content[offset] != ':' {
        return false;
      }
      offset := offset + 1;
      SkipWhitespace();
    }
  }

  /** A member up to its value. */
  function NameAt(s: string, i: nat): (r: Parsed<string>)
    requires i < |s|
    ensures r.Ok? ==> i < r.next <= |s|
  {
    if i + 1 == |s| then Err(i)
    else
      var k := ParseString(s, SkipSpace(s, i + 1));
      if k.Err? then Err(k.at)
      else
        var c := SkipSpace(s, k.next);
        if c == |s| || s[c] != ':' then Err(c) else Ok(k.value, SkipSpace(s, c + 1))
  }

  lemma MemberByName(s: string, i: nat, depth: nat)
    requires i < |s|
    ensures match NameAt(s, i)
      case Err(at) => ParseMember(s, i, depth) == Err(at)
      case Ok(k, p) =>
        var v := ParseValue(s, p, depth);
        ParseMember(s, i, depth) == if v.Ok? then Ok(Member(k, v.value), v.next) else Err(v.at)
  {
    hide ParseValue;
    hide ParseString;
    hide SkipSpace;
  }

  // ---- what the loops have done so far ----

  function CountOn(r: Option<(nat, nat)>, n: nat): Option<(nat, nat)> {
    match r
    case None => None
    case Some((end, k)) => Some((end, k + n))
  }

  lemma PrependNothing(d: Decoded)
    ensures Prepend("", d) == d
  {
    if d.Bytes? {
      assert "" + d.text == d.text;
    }
  }

  lemma PrependTwice(a: string, b: string, d: Decoded)
    ensures Prepend(a, Prepend(b, d)) == Prepend(a + b, d)
  {
    if d.Bytes? {
      assert a + (b + d.text) == a + b + d.text;
    }
  }

  lemma DecodeEnd(s: string, p: nat, end: nat)
    requires end <= p && end < |s|
    ensures Decode(s, p, end) == Bytes("")
  {
  }

  /** A code point without its lowest `n` groups of six bits. */
  function Shifted(cp: nat, n: nat): nat {
    if n == 0 then cp else Shifted(cp, n - 1) / 0x40
  }

  /** Its lowest `n` groups of six bits as continuation bytes. */
  function LowBytes(cp: nat, n: nat): string {
    if n == 0 then "" else [Byte(0x80 + Shifted(cp, n - 1) % 0x40)] + LowBytes(cp, n - 1)
  }

  /** The bits that announce the length of a sequence in its first byte. */
  function Mark(length: nat): nat {
    if length == 1 then 0 else if length == 2 then 0xC0 else if length == 3 then 0xE0 else 0xF0
  }

  lemma Utf8Shape(cp: nat)
    requires cp <= MAX_CODEPOINT
    ensures var n := Utf8Length(cp); var first := Mark(n) + Shifted(cp, n - 1);
      0 < n == |Utf8(cp)| && first < 256 && Utf8(cp) == [Byte(first)] + LowBytes(cp, n - 1)
  {
    assert Shifted(cp, 0) == cp && Shifted(cp, 1) == cp / 0x40;
    assert Shifted(cp, 2) == cp / 0x1000 && Shifted(cp, 3) == cp / 0x40000;
    assert LowBytes(cp, 0) == "" && LowBytes(cp, 1) == [Byte(0x80 + cp % 0x40)];
  }

  /** A list read after others. */
  function After<T>(first: seq<T>, r: Parsed<seq<T>>): Parsed<seq<T>> {
    match r
    case Ok(rest, next) => Ok(first + rest, next)
    case Err(at) => Err(at)
  }

  lemma AfterNothing<T>(r: Parsed<seq<T>>)
    ensures After([], r) == r
  {
    if r.Ok? {
      assert [] + r.value == r.value;
    }
  }

  /** What stands behind the blanks after a value. */
  function Trimmed<T>(s: string, r: Parsed<T>): Parsed<T>
    requires r.Ok? ==> r.next <= |s|
  {
    match r
    case Ok(v, next) => Ok(v, SkipSpace(s, next))
    case Err(at) => Err(at)
  }

  lemma ElemsRound(s: string, i: nat, depth: nat, es: seq<Json>)
    requires i < |s|
    ensures var whole, v := After(es, ParseElems(s, i, depth)), Trimmed(s, ParseValue(s, SkipSpace(s, i + 1), depth));
      match v
      case Err(at) => whole == Err(at)
      case Ok(x, p) =>
        if p < |s| && s[p] == ',' then whole == After(es + [x], ParseElems(s, p, depth))
        else if p < |s| && s[p] == ']' then whole == Ok(es + [x], p + 1)
        else whole == Err(p)
  {
    hide ParseValue;
    hide SkipSpace;
    var v := ParseValue(s, SkipSpace(s, i + 1), depth);
    if v.Ok? {
      var p := SkipSpace(s, v.next);
      if p < |s| && s[p] == ',' {
        AfterOne(es, v.value, ParseElems(s, p, depth));
      }
    }
  }

  lemma MembersRound(s: string, i: nat, depth: nat, ms: seq<Member<Json>>)
    requires i < |s|
    ensures var whole, v := After(ms, ParseMembers(s, i, depth)), Trimmed(s, ParseMember(s, i, depth));
      match v
      case Err(at) => whole == Err(at)
      case Ok(x, p) =>
        if p < |s| && s[p] == ',' then whole == After(ms + [x], ParseMembers(s, p, depth))
        else if p < |s| && s[p] == '}' then whole == Ok(ms + [x], p + 1)
        else whole == Err(p)
  {
    hide ParseMember;
    hide SkipSpace;
    var v := ParseMember(s, i, depth);
    if v.Ok? {
      var p := SkipSpace(s, v.next);
      if p < |s| && s[p] == ',' {
        AfterOne(ms, v.value, ParseMembers(s, p, depth));
      }
    }
  }

  lemma AfterOne<T>(first: seq<T>, x: T, r: Parsed<seq<T>>)
    ensures After(first, After([x], r)) == After(first + [x], r)
  {
    if r.Ok? {
      assert first + ([x] + r.value) == first + [x] + r.value;
    }
  }

  /** `cJSON_ParseWithLengthOpts`: a tree of new items with complete lists that holds the value, and the
      end of its text; or null and the position of the error. */
  method ParseText(s: string, requireNul: bool) returns (root: Item?, position: nat, ghost t: Shape)
    ensures Agrees(root != null, position, Parse(s, requireNul))
    ensures root != null ==> t.item == root && fresh(Items(t)) && Tree(t) && Holds(t, Parse(s, requireNul).value)
    ensures root != null ==> root.next == null && root.prev == null
  {
    hide ParseValue;
    var item := new Item();
    t := Shape(item, []);
    if s == "" {
      return null, 0, t;
    }
    var b := new Buffer(s);
    b.SkipByteOrderMark();
    b.SkipWhitespace();
    var ok;
    ok, t := b.Value(item);
    KidsAllocated(t.kids);
    AllAllocated(t);
    hide Tree;
    hide Holds;
    hide Nodes;
    if ok && requireNul {
      b.SkipWhitespace();
      ok := b.offset < |s| && s[b.offset] == NUL;
    }
    root := if ok then item else null;
    position := if ok then b.offset else Clamp(s, b.offset);
  }
}
