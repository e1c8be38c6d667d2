/** Well-formed string content and its meaning by RFC 8259 section 7, and the decoder's answer on it;
    the printer's escaping is one such content. */
module StringRfc {
  import opened Json
  import opened Rendering
  import opened StringCodec

  /** A piece of a JSON string as the grammar has it. */
  datatype Piece =
    | Plain(c: char)
    | Short(e: char)
    | Unit(hex: string)
    | Pair(high: string, low: string)

  predicate FourHex(h: string) {
    |h| == 4 && IsHex(h[0]) && IsHex(h[1]) && IsHex(h[2]) && IsHex(h[3])
  }

  /** The grammar: neither quote nor backslash unescaped, the eight short escapes, a UTF-16 unit
      outside the surrogates, or a high surrogate followed by a low one. */
  predicate WellFormed(p: Piece) {
    match p
    case Plain(c) => c != '\"' && c != '\\'
    case Short(e) => ShortEscape(e).Some?
    case Unit(h) => FourHex(h) && !(0xD800 <= Hex4(h) <= 0xDFFF)
    case Pair(h, l) => FourHex(h) && FourHex(l) && 0xD800 <= Hex4(h) <= 0xDBFF && 0xDC00 <= Hex4(l) <= 0xDFFF
  }

  function PieceText(p: Piece): (t: string)
    ensures t != ""
  {
    match p
    case Plain(c) => [c]
    case Short(e) => ['\\', e]
    case Unit(h) => "\\u" + h
    case Pair(h, l) => "\\u" + h + "\\u" + l
  }

  /** The bytes a piece stands for. */
  function PieceBytes(p: Piece): string
    requires WellFormed(p)
  {
    match p
    case Plain(c) => [c]
    case Short(e) => [ShortEscape(e).value]
    case Unit(h) => Utf8(Hex4(h))
    case Pair(h, l) => Utf8((Hex4(h) - 0xD800) * 0x400 + (Hex4(l) - 0xDC00) + 0x10000)
  }

  function Content(ps: seq<Piece>): string {
    if ps == [] then "" else PieceText(ps[0]) + Content(ps[1..])
  }

  function Meaning(ps: seq<Piece>): string
    requires forall p :: p in ps ==> WellFormed(p)
  {
    if ps == [] then "" else PieceBytes(ps[0]) + Meaning(ps[1..])
  }

  const HEX_UPPER := "0123456789ABCDEF"
  const HEX_LOWER := "0123456789abcdef"

  /** The hexadecimal digits and the short escapes of section 7, one by one. */
  lemma EscapesByTable(c: char, i: nat)
    ensures i < 16 ==> HexIs(HEX_UPPER[i], i) && HexIs(HEX_LOWER[i], i)
    ensures IsHex(c) ==> c in HEX_UPPER || c in HEX_LOWER
    ensures ShortEscape('\"') == Some('\"') && ShortEscape('\\') == Some('\\') && ShortEscape('/') == Some('/')
    ensures ShortEscape('b') == Some(8 as char) && ShortEscape('f') == Some(12 as char)
    ensures ShortEscape('n') == Some(10 as char) && ShortEscape('r') == Some(13 as char)
    ensures ShortEscape('t') == Some(9 as char)
    ensures c !in "\"\\/bfnrt" ==> ShortEscape(c) == None
  {
    if '0' <= c <= '9' {
      assert HEX_UPPER[c as int - '0' as int] == c;
    } else if 'A' <= c <= 'F' {
      assert HEX_UPPER[10 + c as int - 'A' as int] == c;
    } else if 'a' <= c <= 'f' {
      assert HEX_LOWER[10 + c as int - 'a' as int] == c;
    }
  }

  ghost predicate HexIs(c: char, n: nat) {
    IsHex(c) && HexValue(c) == n
  }

  // ---- reading at a position ----

  /** `t` stands in `s` from `i` on. */
  predicate Reads(s: string, i: nat, t: string) {
    i + |t| <= |s| && s[i..i + |t|] == t
  }

  lemma ReadsSplit(s: string, i: nat, a: string, b: string)
    ensures Reads(s, i, a + b) <==> Reads(s, i, a) && Reads(s, i + |a|, b)
  {
    if i + |a| + |b| <= |s| {
      var t := s[i..i + |a| + |b|];
      assert t[..|a|] == s[i..i + |a|] && t[|a|..] == s[i + |a|..i + |a| + |b|];
      assert t == t[..|a|] + t[|a|..];
      assert (a + b)[..|a|] == a && (a + b)[|a|..] == b;
    }
  }

  lemma ReadsAt(s: string, i: nat, t: string, k: nat)
    requires Reads(s, i, t) && k < |t|
    ensures s[i + k] == t[k]
  {
    assert s[i..i + |t|][k] == s[i + k];
  }

  lemma ReadsPart(s: string, i: nat, t: string, k: nat, n: nat)
    requires Reads(s, i, t) && k + n <= |t|
    ensures s[i + k..i + k + n] == t[k..k + n]
  {
    var mid, last := t[k..k + n], t[k + n..];
    assert t == t[..k] + (mid + last);
    ReadsSplit(s, i, t[..k], mid + last);
    ReadsSplit(s, i + k, mid, last);
  }

  lemma ReadsEnd(s: string, i: nat, t: string)
    requires Reads(s, i, t)
    ensures i + |t| <= |s|
  {
  }

  // ---- pass one ----

  /** The hexadecimal digits of a literal are single bytes to pass one. */
  lemma ScanHex(s: string, i: nat, h: string)
    requires FourHex(h) && Reads(s, i, h)
    ensures ScanString(s, i) == ScanString(s, i + 4)
  {
    ReadsAt(s, i, h, 0);
    ReadsAt(s, i, h, 1);
    ReadsAt(s, i, h, 2);
    ReadsAt(s, i, h, 3);
    assert ScanString(s, i) == ScanString(s, i + 1) == ScanString(s, i + 2) == ScanString(s, i + 3)
      == ScanString(s, i + 4);
  }

  function Shift(r: Option<(nat, nat)>, n: nat): Option<(nat, nat)> {
    match r
    case None => None
    case Some((end, k)) => Some((end, k + n))
  }

  function Escapes(p: Piece): nat {
    match p
    case Plain(_) => 0
    case Pair(_, _) => 2
    case _ => 1
  }

  lemma ScanUnit(s: string, i: nat, h: string)
    requires FourHex(h) && Reads(s, i, "\\u" + h)
    ensures ScanString(s, i) == Shift(ScanString(s, i + 6), 1)
  {
    ReadsSplit(s, i, "\\u", h);
    ReadsAt(s, i, "\\u", 0);
    ScanHex(s, i + 2, h);
  }

  lemma ScanPiece(s: string, i: nat, p: Piece)
    requires WellFormed(p) && Reads(s, i, PieceText(p))
    ensures ScanString(s, i) == Shift(ScanString(s, i + |PieceText(p)|), Escapes(p))
  {
    match p {
      case Plain(c) => ReadsAt(s, i, [c], 0);
      case Short(e) => ReadsAt(s, i, ['\\', e], 0);
      case Unit(h) => ScanUnit(s, i, h);
      case Pair(h, l) =>
        assert PieceText(p) == ("\\u" + h) + ("\\u" + l);
        ReadsSplit(s, i, "\\u" + h, "\\u" + l);
        ScanUnit(s, i, h);
        ScanUnit(s, i + 6, l);
    }
  }

  /** Pass one finds the quote right behind well-formed content. */
  lemma {:induction false} ScanContent(s: string, i: nat, ps: seq<Piece>)
    requires (forall p :: p in ps ==> WellFormed(p)) && Reads(s, i, Content(ps) + "\"")
    ensures ScanString(s, i).Some? && ScanString(s, i).value.0 == i + |Content(ps)|
    decreases |ps|
  {
    hide PieceText;
    hide WellFormed;
    if ps == [] {
      assert Content(ps) + "\"" == "\"";
      ReadsAt(s, i, "\"", 0);
    } else {
      var t := PieceText(ps[0]);
      assert Content(ps) + "\"" == t + (Content(ps[1..]) + "\"");
      ReadsSplit(s, i, t, Content(ps[1..]) + "\"");
      ScanPiece(s, i, ps[0]);
      ScanContent(s, i + |t|, ps[1..]);
    }
  }

  // ---- pass two ----

  lemma LiteralUnit(s: string, i: nat, end: nat, h: string)
    requires FourHex(h) && Reads(s, i, "\\u" + h) && i + 6 <= end <= |s| && !(0xD800 <= Hex4(h) <= 0xDFFF)
    ensures Utf16Literal(s, i, end) == Some((6, Utf8(Hex4(h))))
  {
    ReadsPart(s, i, "\\u" + h, 2, 4);
    assert ("\\u" + h)[2..6] == h;
  }

  lemma LiteralPair(s: string, i: nat, end: nat, h: string, l: string)
    requires WellFormed(Pair(h, l)) && Reads(s, i, PieceText(Pair(h, l))) && i + 12 <= end <= |s|
    ensures Utf16Literal(s, i, end) == Some((12, PieceBytes(Pair(h, l))))
  {
    var t := PieceText(Pair(h, l));
    PairDigits(s, i, h, l);
    ReadsAt(s, i, t, 6);
    ReadsAt(s, i, t, 7);
    SurrogateBits(Hex4(h), Hex4(l));
    hide Reads;
    hide Hex4;
    hide Utf8;
    hide IsHex;
  }

  lemma PairDigits(s: string, i: nat, h: string, l: string)
    requires FourHex(h) && FourHex(l) && Reads(s, i, PieceText(Pair(h, l)))
    ensures i + 12 <= |s| && s[i + 2..i + 6] == h && s[i + 8..i + 12] == l
  {
    var t := PieceText(Pair(h, l));
    ReadsPart(s, i, t, 2, 4);
    ReadsPart(s, i, t, 8, 4);
    assert t[2..6] == h && t[8..12] == l;
  }

  /** Ten bits of each surrogate: its offset in the surrogate block. */
  lemma SurrogateBits(hi: nat, lo: nat)
    requires 0xD800 <= hi <= 0xDBFF && 0xDC00 <= lo <= 0xDFFF
    ensures PairCodepoint(hi, lo) == (hi - 0xD800) * 0x400 + (lo - 0xDC00) + 0x10000
  {
    assert hi == 54 * 0x400 + (hi - 0xD800);
    assert lo == 55 * 0x400 + (lo - 0xDC00);
  }

  lemma DecodePiece(s: string, i: nat, end: nat, p: Piece)
    requires WellFormed(p) && Reads(s, i, PieceText(p)) && i + |PieceText(p)| <= end < |s|
    ensures Decode(s, i, end) == Prepend(PieceBytes(p), Decode(s, i + |PieceText(p)|, end))
  {
    var t := PieceText(p);
    ReadsAt(s, i, t, 0);
    if !p.Plain? {
      ReadsAt(s, i, t, 1);
    }
    match p {
      case Unit(h) => LiteralUnit(s, i, end, h);
      case Pair(h, l) => LiteralPair(s, i, end, h, l);
      case _ =>
    }
  }

  lemma {:induction false} DecodeContent(s: string, i: nat, ps: seq<Piece>)
    requires (forall p :: p in ps ==> WellFormed(p)) && Reads(s, i, Content(ps)) && i + |Content(ps)| < |s|
    ensures Decode(s, i, i + |Content(ps)|) == Bytes(Meaning(ps))
    decreases |ps|
  {
    hide PieceText;
    hide PieceBytes;
    hide WellFormed;
    hide Utf16Literal;
    hide Reads;
    if ps == [] {
    } else {
      var t := PieceText(ps[0]);
      ReadsSplit(s, i, t, Content(ps[1..]));
      ReadsEnd(s, i, t);
      DecodePiece(s, i, i + |Content(ps)|, ps[0]);
      DecodeContent(s, i + |t|, ps[1..]);
    }
  }

  /** Well-formed content decodes to the bytes the standard gives it. */
  lemma DecodesByStandard(s: string, i: nat, ps: seq<Piece>)
    requires (forall p :: p in ps ==> WellFormed(p)) && Reads(s, i, Content(ps) + "\"")
    ensures ScanString(s, i).Some?
    ensures var end := ScanString(s, i).value.0;
      end == i + |Content(ps)| && Decode(s, i, end) == Bytes(Meaning(ps))
  {
    hide PieceText;
    hide PieceBytes;
    hide WellFormed;
    hide Content;
    hide Meaning;
    hide Decode;
    hide ScanString;
    ScanContent(s, i, ps);
    ReadsSplit(s, i, Content(ps), "\"");
    DecodeContent(s, i, ps);
  }

  // ---- the printer's escaping is well-formed content for the string itself ----

  function PieceOf(c: char): Piece {
    if c == '\"' || c == '\\' then Short(c)
    else if c == BACKSPACE then Short('b')
    else if c == FORMFEED then Short('f')
    else if c == '\n' then Short('n')
    else if c == '\r' then Short('r')
    else if c == '\t' then Short('t')
    else if c as int < 32 then Unit("00" + [HexDigit(c as int / 16), HexDigit(c as int % 16)])
    else Plain(c)
  }

  function Pieces(str: string): (ps: seq<Piece>)
    ensures |ps| == |str|
  {
    if str == "" then [] else [PieceOf(str[0])] + Pieces(str[1..])
  }

  lemma HexOfByte(c: char)
    requires c as int < 32
    ensures var h := "00" + [HexDigit(c as int / 16), HexDigit(c as int % 16)];
      FourHex(h) && Hex4(h) == c as int
  {
    var a, b := HexDigit(c as int / 16), HexDigit(c as int % 16);
    assert IsHex(a) && HexValue(a) == c as int / 16;
    assert IsHex(b) && HexValue(b) == c as int % 16;
    assert IsHex('0') && HexValue('0') == 0;
  }

  lemma PieceOfCorrect(c: char)
    ensures WellFormed(PieceOf(c)) && PieceText(PieceOf(c)) == EscapeChar(c) && PieceBytes(PieceOf(c)) == [c]
  {
    if c as int < 32 {
      HexOfByte(c);
    }
  }

  lemma {:induction false} PiecesCorrect(str: string)
    ensures forall p :: p in Pieces(str) ==> WellFormed(p)
    ensures Content(Pieces(str)) == Escape(str) && Meaning(Pieces(str)) == str
  {
    hide WellFormed;
    hide PieceOf;
    hide PieceText;
    hide PieceBytes;
    hide EscapeChar;
    if str == "" {
    } else {
      var rest := Pieces(str[1..]);
      PieceOfCorrect(str[0]);
      PiecesCorrect(str[1..]);
      FirstPiece(PieceOf(str[0]), rest);
      assert str == [str[0]] + str[1..];
    }
  }

  lemma FirstPiece(p: Piece, rest: seq<Piece>)
    requires WellFormed(p) && forall q :: q in rest ==> WellFormed(q)
    ensures var ps := [p] + rest;
      && (forall q :: q in ps ==> WellFormed(q))
      && Content(ps) == PieceText(p) + Content(rest) && Meaning(ps) == PieceBytes(p) + Meaning(rest)
  {
    hide WellFormed;
    hide PieceText;
    hide PieceBytes;
    assert ([p] + rest)[1..] == rest;
  }

  /** Reading back an escaped string. */
  lemma DecodesEscaped(s: string, i: nat, str: string)
    requires Reads(s, i, Escape(str) + "\"")
    ensures ScanString(s, i).Some?
    ensures var end := ScanString(s, i).value.0;
      end == i + |Escape(str)| && Decode(s, i, end) == Bytes(str)
  {
    PiecesCorrect(str);
    DecodesByStandard(s, i, Pieces(str));
  }

  /** The printer's text for a byte holds no control character, as section 7 asks, and no well-formed text
      without one is shorter. Its hexadecimal digits are lower-case. */
  lemma EscapeShortest(c: char, p: Piece)
    ensures forall k :: 0 <= k < |EscapeChar(c)| ==> EscapeChar(c)[k] >= ' '
    ensures EscapeChar(c) != [c] ==> forall k :: 0 <= k < |EscapeChar(c)| ==> !('A' <= EscapeChar(c)[k] <= 'Z')
    ensures WellFormed(p) && PieceBytes(p) == [c] && (forall k :: 0 <= k < |PieceText(p)| ==> PieceText(p)[k] >= ' ')
      ==> |EscapeChar(c)| <= |PieceText(p)|
  {
    hide Hex4;
    if p.Plain? {
      assert PieceText(p)[0] == p.c;
    }
  }
}
