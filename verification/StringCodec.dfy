/** String literals: where one ends, what it decodes to, and how much room the result needs. */
module StringCodec {
  import opened Json
  import opened Rendering

  // ---- UTF-16 literals and UTF-8 ----

  predicate IsHex(c: char) {
    '0' <= c <= '9' || 'A' <= c <= 'F' || 'a' <= c <= 'f'
  }

  function HexValue(c: char): (v: nat)
    requires IsHex(c)
    ensures v < 16
  {
    if c <= '9' then c as int - '0' as int
    else if c <= 'F' then 10 + c as int - 'A' as int
    else 10 + c as int - 'a' as int
  }

  /** `parse_hex4`: the number of four hexadecimal digits, and 0 when one of them is none. */
  function Hex4(t: string): (h: nat)
    requires |t| == 4
    ensures h <= 0xFFFF
  {
    if IsHex(t[0]) && IsHex(t[1]) && IsHex(t[2]) && IsHex(t[3]) then
      4096 * HexValue(t[0]) + 256 * HexValue(t[1]) + 16 * HexValue(t[2]) + HexValue(t[3])
    else 0
  }

  method ParseHex4(t: string) returns (h: nat)
    requires |t| == 4
    ensures h == Hex4(t)
  {
    h := 0;
    for i := 0 to 4
      invariant forall k :: 0 <= k < i ==> IsHex(t[k])
      invariant i == 1 ==> h == 16 * HexValue(t[0])
      invariant i == 2 ==> h == 256 * HexValue(t[0]) + 16 * HexValue(t[1])
      invariant i == 3 ==> h == 4096 * HexValue(t[0]) + 256 * HexValue(t[1]) + 16 * HexValue(t[2])
      invariant i == 0 ==> h == 0
      invariant i == 4 ==> h == Hex4(t)
    {
      if !IsHex(t[i]) {
        return 0;
      }
      h := h + HexValue(t[i]);
      if i < 3 {
        h := h * 16;
      }
    }
  }

  const MAX_CODEPOINT: int := 0x10FFFF

  function Byte(b: nat): char
    requires b < 256
  {
    b as char
  }

  /** The table of RFC 3629 section 3: the bits of the code point, six to a continuation byte. */
  function Utf8(cp: nat): (bytes: string)
    requires cp <= MAX_CODEPOINT
    ensures |bytes| == Utf8Length(cp)
  {
    if cp < 0x80 then [Byte(cp)]
    else if cp < 0x800 then [Byte(0xC0 + cp / 0x40), Byte(0x80 + cp % 0x40)]
    else if cp < 0x10000 then [Byte(0xE0 + cp / 0x1000), Byte(0x80 + cp / 0x40 % 0x40), Byte(0x80 + cp % 0x40)]
    else
      [Byte(0xF0 + cp / 0x40000), Byte(0x80 + cp / 0x1000 % 0x40),
       Byte(0x80 + cp / 0x40 % 0x40), Byte(0x80 + cp % 0x40)]
  }

  function Utf8Length(cp: nat): nat {
    if cp < 0x80 then 1 else if cp < 0x800 then 2 else if cp < 0x10000 then 3 else 4
  }

  /** Reading UTF-8 back: the payload bits of a sequence, by the length its first byte announces. */
  function FromUtf8(bytes: string): int
    requires bytes != ""
  {
    var b := bytes[0] as int;
    if |bytes| == 1 then b
    else if |bytes| == 2 then (b - 0xC0) * 0x40 + (bytes[1] as int - 0x80)
    else if |bytes| == 3 then (b - 0xE0) * 0x1000 + (bytes[1] as int - 0x80) * 0x40 + (bytes[2] as int - 0x80)
    else if |bytes| == 4 then
      (b - 0xF0) * 0x40000 + (bytes[1] as int - 0x80) * 0x1000 +
      (bytes[2] as int - 0x80) * 0x40 + (bytes[3] as int - 0x80)
    else -1
  }

  predicate Continuation(c: char) {
    0x80 <= c as int < 0xC0
  }

  lemma Utf8Inverse(cp: nat)
    requires cp <= MAX_CODEPOINT
    ensures FromUtf8(Utf8(cp)) == cp
    ensures forall i :: 1 <= i < |Utf8(cp)| ==> Continuation(Utf8(cp)[i])
    ensures |Utf8(cp)| == 1 ==> Utf8(cp)[0] as int < 0x80
    ensures |Utf8(cp)| == 2 ==> 0xC0 <= Utf8(cp)[0] as int < 0xE0
    ensures |Utf8(cp)| == 3 ==> 0xE0 <= Utf8(cp)[0] as int < 0xF0
    ensures |Utf8(cp)| == 4 ==> 0xF0 <= Utf8(cp)[0] as int < 0xF8
  {
    SixBits(cp);
    SixBits(cp / 0x40);
    SixBits(cp / 0x1000);
    assert cp / 0x1000 == cp / 0x40 / 0x40;
    assert cp / 0x40000 == cp / 0x1000 / 0x40;
  }

  lemma SixBits(n: nat)
    ensures n == n / 0x40 * 0x40 + n % 0x40
  {
  }

  /** The masks of the C code in arithmetic: a continuation byte carries the low six bits. */
  lemma ContinuationMask(cp: bv32)
    ensures (cp | 0x80) & 0xBF == 0x80 + cp % 0x40
    ensures cp >> 6 == cp / 0x40
  {
  }

  /** First surrogate, second surrogate: ten bits each. */
  function PairCodepoint(hi: nat, lo: nat): nat {
    0x10000 + hi % 0x400 * 0x400 + lo % 0x400
  }

  /** `utf16_literal_to_utf8` at `i`, with the string's content ending at `end`: how many bytes it
      reads and what it writes, or None. */
  function Utf16Literal(s: string, i: nat, end: nat): (r: Option<(nat, string)>)
    requires i <= end <= |s|
    ensures r.Some? ==> (r.value.0 == 6 || r.value.0 == 12) && i + r.value.0 <= end
  {
    if end - i < 6 then None
    else
      var first := Hex4(s[i + 2..i + 6]);
      if 0xDC00 <= first <= 0xDFFF then None
      else if 0xD800 <= first <= 0xDBFF then
        if end - (i + 6) < 6 then None
        else if s[i + 6] != '\\' || s[i + 7] != 'u' then None
        else
          var second := Hex4(s[i + 8..i + 12]);
          if second < 0xDC00 || second > 0xDFFF then None
          else Some((12, Utf8(PairCodepoint(first, second))))
      else Some((6, Utf8(first)))
  }

  // ---- pass one: the end of the literal ----

  /** From `i`, the position of the closing quote and the number of backslash escapes before it. */
  function ScanString(s: string, i: nat): (r: Option<(nat, nat)>)
    ensures r.Some? ==> i <= r.value.0 < |s| && s[r.value.0] == '\"'
    decreases |s| - i
  {
    if i >= |s| then None
    else if s[i] == '\"' then Some((i, 0))
    else if s[i] == '\\' then
      if i + 1 >= |s| then None
      else (
        match ScanString(s, i + 2)
        case None => None
        case Some((end, n)) => Some((end, n + 1)))
    else ScanString(s, i + 1)
  }

  // ---- pass two: decoding ----

  /** Decoded bytes, or the position of an escape that is refused. */
  datatype Decoded = Bytes(text: string) | Refused(at: nat)

  function Prepend(t: string, d: Decoded): Decoded {
    match d
    case Bytes(text) => Bytes(t + text)
    case Refused(at) => Refused(at)
  }

  /** The byte of a two-character escape. */
  function ShortEscape(c: char): Option<char> {
    if c == 'b' then Some(BACKSPACE)
    else if c == 'f' then Some(FORMFEED)
    else if c == 'n' then Some('\n')
    else if c == 'r' then Some('\r')
    else if c == 't' then Some('\t')
    else if c == '\"' || c == '\\' || c == '/' then Some(c)
    else None
  }

  function Decode(s: string, i: nat, end: nat): Decoded
    requires end < |s|
    decreases |s| - i
  {
    if i >= end then Bytes("")
    else if s[i] != '\\' then Prepend([s[i]], Decode(s, i + 1, end))
    else if s[i + 1] == 'u' then
      match Utf16Literal(s, i, end)
      case None => Refused(i)
      case Some((n, bytes)) => Prepend(bytes, Decode(s, i + n, end))
    else
      match ShortEscape(s[i + 1])
      case None => Refused(i)
      case Some(c) => Prepend([c], Decode(s, i + 2, end))
  }

  // ---- the room pass one sets aside is enough ----

  /** Units of pass one from `i`: escapes and single bytes. */
  function Units(s: string, i: nat, end: nat): nat
    requires end <= |s|
    decreases |s| - i
  {
    if i >= end then 0 else if s[i] == '\\' then 1 + Units(s, i + 2, end) else 1 + Units(s, i + 1, end)
  }

  /** What pass one counts: the content length less one byte for each escape. */
  lemma {:induction false} ScanUnits(s: string, i: nat)
    requires ScanString(s, i).Some?
    ensures var (end, n) := ScanString(s, i).value; Units(s, i, end) == end - i - n
    decreases |s| - i
  {
    if s[i] == '\\' {
      ScanUnits(s, i + 2);
    } else if s[i] != '\"' {
      ScanUnits(s, i + 1);
    }
  }

  /** Starting one byte later never costs more units and saves at most one, even when the start
      falls inside an escape. */
  lemma {:induction false} UnitsShift(s: string, i: nat, end: nat)
    requires end <= |s|
    ensures Units(s, i + 1, end) <= Units(s, i, end) <= Units(s, i + 1, end) + 1
    decreases |s| - i
  {
    if i < end {
      UnitsShift(s, i + 1, end);
    }
  }

  lemma {:induction false} UnitsDrop(s: string, i: nat, n: nat, end: nat)
    requires end <= |s|
    ensures Units(s, i + n, end) <= Units(s, i, end)
    decreases n
  {
    if n == 0 {
    } else {
      UnitsDrop(s, i, n - 1, end);
      UnitsShift(s, i + n - 1, end);
    }
  }

  /** Bytes that are no backslash are one unit each. */
  lemma {:induction false} PlainUnits(s: string, i: nat, n: nat, end: nat)
    requires i + n <= end <= |s| && forall k :: i <= k < i + n ==> s[k] != '\\'
    ensures Units(s, i, end) == n + Units(s, i + n, end)
    decreases n
  {
    if n == 0 {
    } else {
      PlainUnits(s, i + 1, n - 1, end);
    }
  }

  /** Four valid digits hold no backslash, so the literal takes five units; an invalid one writes a
      single byte. */
  lemma LiteralUnits(s: string, i: nat, end: nat)
    requires i < end < |s| && s[i] == '\\' && s[i + 1] == 'u' && Utf16Literal(s, i, end).Some?
    ensures var (n, bytes) := Utf16Literal(s, i, end).value; |bytes| + Units(s, i + n, end) <= Units(s, i, end)
  {
    var first := Hex4(s[i + 2..i + 6]);
    if first == 0 {
      UnitsDrop(s, i + 2, 4, end);
    } else {
      ValidDigits(s, i + 2, end);
      if 0xD800 <= first <= 0xDBFF {
        ValidDigits(s, i + 8, end);
      }
    }
  }

  lemma ValidDigits(s: string, i: nat, end: nat)
    requires i + 4 <= end <= |s| && Hex4(s[i..i + 4]) > 0
    ensures Units(s, i, end) == 4 + Units(s, i + 4, end)
  {
    var t := s[i..i + 4];
    assert s[i] == t[0] && s[i + 1] == t[1] && s[i + 2] == t[2] && s[i + 3] == t[3];
    PlainUnits(s, i, 4, end);
  }

  /** One step of pass two stays within the units it consumes. */
  lemma StepUnits(s: string, i: nat, end: nat)
    requires i < end < |s|
    ensures s[i] != '\\' ==> 1 + Units(s, i + 1, end) <= Units(s, i, end)
    ensures s[i] == '\\' && s[i + 1] == 'u' && Utf16Literal(s, i, end).Some? ==>
      var (n, bytes) := Utf16Literal(s, i, end).value; |bytes| + Units(s, i + n, end) <= Units(s, i, end)
    ensures s[i] == '\\' && s[i + 1] != 'u' ==> 1 + Units(s, i + 2, end) <= Units(s, i, end)
  {
    if s[i] == '\\' && s[i + 1] == 'u' && Utf16Literal(s, i, end).Some? {
      LiteralUnits(s, i, end);
    }
  }

  lemma {:induction false} DecodedFits(s: string, i: nat, end: nat)
    requires end < |s| && Decode(s, i, end).Bytes?
    ensures |Decode(s, i, end).text| <= Units(s, i, end)
    decreases |s| - i
  {
    if i < end {
      StepUnits(s, i, end);
      if s[i] != '\\' {
        DecodedFits(s, i + 1, end);
      } else if s[i + 1] == 'u' {
        DecodedFits(s, i + Utf16Literal(s, i, end).value.0, end);
      } else {
        DecodedFits(s, i + 2, end);
      }
    }
  }

  /** The bytes written never exceed the content length less the escapes counted in pass one. */
  lemma TwoPassBound(s: string, i: nat)
    requires ScanString(s, i).Some? && Decode(s, i, ScanString(s, i).value.0).Bytes?
    ensures var (end, n) := ScanString(s, i).value; |Decode(s, i, end).text| <= end - i - n
  {
    ScanUnits(s, i);
    DecodedFits(s, i, ScanString(s, i).value.0);
  }
}
