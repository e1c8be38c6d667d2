/** The numbers and strings of the grammar, spelled out, and what they stand for. */
module Lexemes {
  import opened Text
  import opened Json
  import opened StringCodec
  import opened StringRfc
  import opened Parser
  import opened Grammar

  // ---- numbers: section 6 of RFC 8259, and what the code takes beyond it ----

  /** The parts of a number: `places` stand behind the point, `mark` is the letter and sign of the exponent. */
  datatype Decimal = Decimal(minus: bool, whole: string, point: bool, places: string, mark: string, exponent: string)

  ghost predicate AllDigits(t: string) {
    forall k :: 0 <= k < |t| ==> '0' <= t[k] <= '9'
  }

  /** Unlike the standard, leading zeros are taken, and digits may be missing on one side of the point. */
  ghost predicate Taken(d: Decimal) {
    && AllDigits(d.whole) && AllDigits(d.places) && AllDigits(d.exponent)
    && (d.whole != "" || (d.minus && d.places != "")) && (!d.point ==> d.places == "")
    && d.mark in {"", "e", "E", "e+", "E+", "e-", "E-"} && (d.mark == "" <==> d.exponent == "")
  }

  ghost function Spelled(d: Decimal): string {
    (if d.minus then "-" else "") + (d.whole + ((if d.point then "." + d.places else "") + (d.mark + d.exponent)))
  }

  ghost function Natural(t: string): nat
    requires AllDigits(t)
  {
    if t == "" then 0 else 10 * Natural(t[..|t| - 1]) + (t[|t| - 1] as int - '0' as int)
  }

  ghost function TenTo(k: nat): (n: nat)
    ensures n > 0
  {
    if k == 0 then 1 else 10 * TenTo(k - 1)
  }

  ghost function Magnitude(digits: nat, e: int): real {
    if e >= 0 then digits as real * TenTo(e) as real else digits as real / TenTo(0 - e) as real
  }

  ghost function Power(d: Decimal): int
    requires Taken(d)
  {
    if |d.mark| == 2 && d.mark[1] == '-' then 0 - Natural(d.exponent) else Natural(d.exponent)
  }

  /** All digits as one number, times ten to the exponent less the number of places. */
  ghost function Quantity(d: Decimal): real
    requires Taken(d)
  {
    var magnitude := Magnitude(Natural(d.whole + d.places), Power(d) - |d.places|);
    if d.minus then -magnitude else magnitude
  }

  lemma {:induction false} PowerUp(k: nat)
    ensures Pow10(k) == TenTo(k) as real
  {
    if k == 0 {
    } else {
      PowerUp(k - 1);
    }
  }

  lemma {:induction false} PowerDown(k: nat)
    ensures Pow10(0 - k) == 1.0 / TenTo(k) as real
  {
    if k == 0 {
    } else {
      PowerDown(k - 1);
      var a, b := TenTo(k - 1) as real, TenTo(k) as real;
      assert b == 10.0 * a;
      assert Pow10(0 - k) == Pow10(0 - (k - 1)) / 10.0;
      OverTen(a, b);
    }
  }

  lemma OverTen(a: real, b: real)
    requires a > 0.0 && b == 10.0 * a
    ensures 1.0 / a / 10.0 == 1.0 / b
  {
  }

  /** The digits from `i` to `j` are one number. */
  lemma {:induction false} ValueOfSlice(t: string, i: nat, j: nat)
    requires i <= j <= |t| && AllDigits(t[i..j])
    ensures DigitsValue(t, i, j) == Natural(t[i..j])
    decreases j
  {
    if i == j {
    } else {
      var u := t[i..j];
      assert u[..|u| - 1] == t[i..j - 1] && u[|u| - 1] == t[j - 1];
      ValueOfSlice(t, i, j - 1);
    }
  }

  lemma DigitsConcat(a: string, b: string)
    requires AllDigits(a) && AllDigits(b)
    ensures AllDigits(a + b)
  {
  }

  lemma NaturalSnoc(u: string)
    requires AllDigits(u) && u != ""
    ensures AllDigits(u[..|u| - 1]) && Natural(u) == 10 * Natural(u[..|u| - 1]) + (u[|u| - 1] as int - '0' as int)
  {
  }

  lemma NaturalEmpty()
    ensures AllDigits("") && Natural("") == 0 && TenTo(0) == 1 && forall k: nat :: TenTo(k + 1) == 10 * TenTo(k)
  {
  }

  lemma {:induction false} NaturalConcat(a: string, b: string)
    requires AllDigits(a) && AllDigits(b)
    ensures AllDigits(a + b) && Natural(a + b) == Natural(a) * TenTo(|b|) + Natural(b)
    decreases |b|
  {
    hide *;
    NaturalEmpty();
    DigitsConcat(a, b);
    if b == "" {
      assert a + b == a;
    } else {
      var u, c := a + b, b[..|b| - 1];
      assert u[..|u| - 1] == a + c && u[|u| - 1] == b[|b| - 1];
      NaturalSnoc(u);
      NaturalSnoc(b);
      NaturalConcat(a, c);
      TimesTen(Natural(a), TenTo(|c|));
      assert TenTo(|b|) == 10 * TenTo(|c|);
    }
  }

  lemma TimesTen(a: nat, t: nat)
    ensures a * (10 * t) == 10 * (a * t)
  {
  }

  /** A run of digits ends where no digit follows. */
  lemma {:induction false} RunOver(t: string, i: nat, j: nat)
    requires i <= j <= |t| && AllDigits(t[i..j]) && (j == |t| || !IsDigit(t[j]))
    ensures DigitRun(t, i) == j
    decreases j - i
  {
    if i == j {
    } else {
      assert t[i..j][0] == t[i];
      assert t[i + 1..j] == t[i..j][1..];
      RunOver(t, i + 1, j);
    }
  }

  lemma {:induction false} RunTaken(t: string, i: nat)
    requires i <= |t|
    ensures AllDigits(t[i..DigitRun(t, i)])
    decreases |t| - i
  {
    var j := DigitRun(t, i);
    if i < |t| && IsDigit(t[i]) {
      RunTaken(t, i + 1);
      assert t[i..j] == [t[i]] + t[i + 1..j];
    }
  }

  // ---- strtod on the parts ----

  lemma PartSlice(a: string, u: string, b: string)
    ensures var t := a + (u + b);
      |t| == |a| + |u| + |b| && t[|a|..|a| + |u|] == u && (b != "" ==> t[|a| + |u|] == b[0])
  {
  }

  /** A digit run inside a text: behind `a`, in front of `b`. */
  lemma PartRun(a: string, digits: string, b: string)
    requires AllDigits(digits) && (b == "" || !IsDigit(b[0]))
    ensures var t := a + (digits + b);
      DigitRun(t, |a|) == |a| + |digits| && DigitsValue(t, |a|, |a| + |digits|) == Natural(digits)
  {
    hide *;
    var t := a + (digits + b);
    PartSlice(a, digits, b);
    RunOver(t, |a|, |a| + |digits|);
    ValueOfSlice(t, |a|, |a| + |digits|);
  }

  lemma PartExponent(a: string, mark: string, digits: string)
    requires AllDigits(digits) && mark in {"", "e", "E", "e+", "E+", "e-", "E-"} && (mark == "" <==> digits == "")
    ensures var t := a + (mark + digits);
      Exponent(t, |a|) == (|t|, if |mark| == 2 && mark[1] == '-' then 0 - Natural(digits) else Natural(digits))
  {
    var t := a + (mark + digits);
    assert t == (a + mark) + (digits + "");
    PartRun(a + mark, digits, "");
    hide DigitRun;
    hide DigitsValue;
    if mark == "" {
    } else {
      assert t[|a|] == mark[0] && t[|a| + 1] == if |mark| == 2 then mark[1] else digits[0];
    }
  }

  lemma MagnitudeOf(digits: nat, e: int)
    ensures Magnitude(digits, e) == digits as real * Pow10(e)
  {
    if e >= 0 {
      PowerUp(e);
    } else {
      PowerDown(0 - e);
      Quotient(digits as real, TenTo(0 - e) as real);
    }
    hide Pow10;
    hide TenTo;
  }

  /** Digits on both sides of the point are one number. */
  lemma MantissaOf(whole: nat, places: nat, n: nat)
    ensures whole as real * Pow10(n) + places as real == (whole * TenTo(n) + places) as real
  {
    PowerUp(n);
    hide Pow10;
    hide TenTo;
    assert (whole * TenTo(n)) as real == whole as real * TenTo(n) as real;
  }

  lemma ScaledStep(t: string, i: nat, j: nat, k: nat, exponent: int, digits: nat, n: nat)
    requires t != "" && j <= |t| && k <= |t| && n == if k > j then k - j - 1 else 0
    requires DigitsValue(t, i, j) as real * Pow10(n) + DigitsValue(t, j + 1, k) as real == digits as real
    ensures Scaled(t, i, j, k, exponent)
      == if t[0] == '-' then -Magnitude(digits, exponent - n) else Magnitude(digits, exponent - n)
  {
    hide DigitsValue;
    hide Pow10;
    hide Magnitude;
    MagnitudeOf(digits, exponent - n);
  }

  lemma ScaledQuantity(d: Decimal, t: string, i: nat, j: nat, k: nat)
    requires Taken(d) && t != "" && j <= |t| && k <= |t| && (t[0] == '-' <==> d.minus)
    requires |d.places| == if k > j then k - j - 1 else 0
    requires AllDigits(d.whole) && AllDigits(d.places)
    requires DigitsValue(t, i, j) == Natural(d.whole) && DigitsValue(t, j + 1, k) == Natural(d.places)
    ensures Scaled(t, i, j, k, Power(d)) == Quantity(d)
  {
    hide *;
    var digits := Natural(d.whole) * TenTo(|d.places|) + Natural(d.places);
    NaturalConcat(d.whole, d.places);
    MantissaOf(Natural(d.whole), Natural(d.places), |d.places|);
    ScaledStep(t, i, j, k, Power(d), digits, |d.places|);
    QuantityIs(d, digits);
  }

  lemma QuantityIs(d: Decimal, digits: nat)
    requires Taken(d) && AllDigits(d.whole + d.places) && digits == Natural(d.whole + d.places)
    ensures var m := Magnitude(digits, Power(d) - |d.places|); Quantity(d) == if d.minus then -m else m
  {
    hide Natural;
    hide Magnitude;
    hide Power;
  }

  lemma Quotient(a: real, b: real)
    requires b > 0.0
    ensures a * (1.0 / b) == a / b
  {
  }

  /** The text cut in front of its whole digits, its places, and its exponent. */
  lemma SpelledCuts(d: Decimal)
    requires Taken(d)
    ensures var t, m := Spelled(d), if d.minus then "-" else "";
      var rest, point := d.mark + d.exponent, if d.point then "." + d.places else "";
      && t == m + (d.whole + (point + rest)) && t == (m + d.whole + point) + rest
      && (d.point ==> t == (m + d.whole + ".") + (d.places + rest))
  {
    hide Taken;
  }

  lemma SpelledHead(d: Decimal)
    requires Taken(d)
    ensures var t := Spelled(d);
      t != "" && (t[0] == '-' <==> d.minus) && t[0] != '+' && (t[0] == '-' || IsDigit(t[0]))
  {
    assert !d.minus ==> Spelled(d)[0] == d.whole[0];
  }

  lemma TakenParts(d: Decimal)
    requires Taken(d)
    ensures AllDigits(d.whole) && AllDigits(d.places) && AllDigits(d.exponent)
    ensures (d.whole != "" || (d.minus && d.places != "")) && (!d.point ==> d.places == "")
    ensures d.mark in {"", "e", "E", "e+", "E+", "e-", "E-"} && (d.mark == "" <==> d.exponent == "")
    ensures var b := d.mark + d.exponent; b == "" || (!IsDigit(b[0]) && b[0] != '.')
    ensures Power(d) == if |d.mark| == 2 && d.mark[1] == '-' then 0 - Natural(d.exponent) else Natural(d.exponent)
    ensures !IsDigit('.')
  {
    hide AllDigits;
    hide Natural;
  }

  /** Where the whole digits end, the places, and the exponent. */
  lemma SpelledRuns(d: Decimal)
    requires Taken(d) && AllDigits(d.whole) && AllDigits(d.places)
    ensures var t, i := Spelled(d), if d.minus then 1 else 0;
      var j := i + |d.whole|;
      var k := if d.point then j + 1 + |d.places| else j;
      && k <= |t| && DigitRun(t, i) == j && DigitsValue(t, i, j) == Natural(d.whole)
      && (if d.point then j < |t| && t[j] == '.' && DigitRun(t, j + 1) == k else j < |t| ==> t[j] != '.')
      && DigitsValue(t, j + 1, k) == Natural(d.places) && Exponent(t, k) == (|t|, Power(d))
  {
    hide *;
    var m, point, rest := if d.minus then "-" else "", if d.point then "." + d.places else "", d.mark + d.exponent;
    var t := Spelled(d);
    var j := |m| + |d.whole|;
    SpelledCuts(d);
    TakenParts(d);
    PartRun(m, d.whole, point + rest);
    PartSlice(m, d.whole, point + rest);
    PartExponent(m + d.whole + point, d.mark, d.exponent);
    if d.point {
      PartRun(m + d.whole + ".", d.places, rest);
    } else {
      NoDigitsValue(t, j);
    }
  }

  lemma SpelledScan(d: Decimal)
    requires Taken(d)
    ensures var t, i := Spelled(d), if d.minus then 1 else 0;
      var j := i + |d.whole|;
      var k := if d.point then j + 1 + |d.places| else j;
      && t != "" && k <= |t| && Scanned(t, i, j, k) && (t[0] == '-' <==> d.minus) && (t[0] == '-' || IsDigit(t[0]))
      && DigitsValue(t, i, j) == Natural(d.whole) && DigitsValue(t, j + 1, k) == Natural(d.places)
      && Exponent(t, k) == (|t|, Power(d))
  {
    TakenParts(d);
    SpelledHead(d);
    SpelledRuns(d);
    hide Spelled;
    hide DigitRun;
    hide DigitsValue;
    hide Exponent;
    hide Natural;
    hide Taken;
    hide Power;
  }

  lemma NoDigitsValue(t: string, j: nat)
    requires j <= |t|
    ensures DigitsValue(t, j + 1, j) == 0 && Natural("") == 0
  {
  }

  /** `strtod` reads a number to its end and gives it its decimal meaning. */
  lemma SpelledRead(d: Decimal)
    requires Taken(d)
    ensures Strtod(Spelled(d)) == (|Spelled(d)|, Quantity(d))
  {
    var t, i := Spelled(d), if d.minus then 1 else 0;
    var j := i + |d.whole|;
    var k := if d.point then j + 1 + |d.places| else j;
    SpelledScan(d);
    StrtodScanned(t, i, j, k);
    ScaledQuantity(d, t, i, j, k);
    hide Strtod;
    hide Scaled;
    hide Quantity;
    hide Exponent;
    hide Scanned;
    hide Power;
    hide DigitsValue;
    hide Natural;
    hide Spelled;
  }

  lemma CutParts(t: string, i: nat, j: nat, k: nat)
    requires i <= j <= k <= |t| && (i == 1 ==> t[0] == '-') && i <= 1 && (k > j ==> t[j] == '.')
    ensures t == (if i == 1 then "-" else "")
      + (t[i..j] + ((if k > j then "." + t[j + 1..k] else "") + t[k..]))
  {
    assert t == t[..i] + (t[i..j] + (t[j..k] + t[k..]));
    if k > j {
      assert t[j..k] == "." + t[j + 1..k];
    }
    assert i == 1 ==> t[..i] == "-";
  }

  /** Where the parts of a text lie that `strtod` reads to its end. */
  lemma NumeralScan(t: string) returns (i: nat, j: nat, k: nat)
    requires IsNumeral(t)
    ensures i == (if t[0] == '-' then 1 else 0) && i <= j <= k <= |t| && (i == j ==> k > j + 1 && i == 1)
    ensures AllDigits(t[i..j]) && (k > j ==> t[j] == '.' && AllDigits(t[j + 1..k]))
    ensures Exponent(t, k).0 == |t|
  {
    i := if t[0] == '-' then 1 else 0;
    j := DigitRun(t, i);
    k := if j < |t| && t[j] == '.' then DigitRun(t, j + 1) else j;
    StrtodScanned(t, i, j, k);
    RunTaken(t, i);
    if k > j {
      RunTaken(t, j + 1);
    }
    if i == 0 {
      FirstDigit(t);
    }
    hide Strtod;
    hide DigitRun;
    hide Exponent;
    hide Scaled;
  }

  /** The parts of a text that `strtod` reads to its end. */
  lemma PartsOf(t: string) returns (d: Decimal)
    requires IsNumeral(t)
    ensures Taken(d) && Spelled(d) == t
  {
    var i, j, k := NumeralScan(t);
    var mark, digits := MarkOf(t, k);
    CutParts(t, i, j, k);
    hide IsNumeral;
    hide Exponent;
    d := Decimal(i == 1, t[i..j], k > j, if k > j then t[j + 1..k] else "", mark, digits);
  }

  lemma FirstDigit(t: string)
    requires t != "" && IsDigit(t[0])
    ensures DigitRun(t, 0) > 0
  {
  }

  lemma MarkOf(t: string, k: nat) returns (mark: string, digits: string)
    requires k <= |t| && Exponent(t, k).0 == |t|
    ensures AllDigits(digits) && mark in {"", "e", "E", "e+", "E+", "e-", "E-"} && (mark == "" <==> digits == "")
    ensures t[k..] == mark + digits
  {
    if k == |t| {
      mark, digits := "", "";
    } else {
      var p := if k + 1 < |t| && (t[k + 1] == '+' || t[k + 1] == '-') then k + 2 else k + 1;
      RunTaken(t, p);
      mark, digits := t[k..p], t[p..];
      assert t[p..DigitRun(t, p)] == digits;
      assert mark == if p == k + 2 then [t[k], t[k + 1]] else [t[k]];
    }
  }

  /** A number of the grammar is a decimal of at most 63 bytes, and has its value. */
  lemma NumeralsExactly(t: string, v: real)
    ensures IsNumeral(t) && Strtod(t).1 == v <==>
      |t| <= 63 && exists d :: Taken(d) && Spelled(d) == t && Quantity(d) == v
  {
    if IsNumeral(t) && Strtod(t).1 == v {
      var d := PartsOf(t);
      SpelledRead(d);
      assert Taken(d) && Spelled(d) == t && Quantity(d) == v;
    }
    if |t| <= 63 && exists d :: Taken(d) && Spelled(d) == t && Quantity(d) == v {
      var d :| Taken(d) && Spelled(d) == t && Quantity(d) == v;
      SpelledRead(d);
      SpelledScan(d);
      SpelledChars(d);
    }
    hide Strtod;
    hide Spelled;
    hide Quantity;
    hide Taken;
  }

  lemma SpelledChars(d: Decimal)
    requires Taken(d)
    ensures forall k :: 0 <= k < |Spelled(d)| ==> NumberChar(Spelled(d)[k])
  {
    assert forall c :: c in d.mark ==> NumberChar(c);
    assert forall c :: c in d.whole || c in d.places || c in d.exponent ==> IsDigit(c);
    hide IsDigit;
    hide AllDigits;
    assert forall c :: c in Spelled(d) ==> c == '-' || c == '.' || c in d.mark || IsDigit(c);
  }

  // ---- strings: section 7 of RFC 8259, and what the code takes beyond it ----

  /** No quote but behind a backslash, and no backslash left alone at the end: where pass one ends. */
  predicate Closed(t: string) {
    t == "" || if t[0] == '\\' then |t| > 1 && Closed(t[2..]) else t[0] != '\"' && Closed(t[1..])
  }

  /** What pass two takes: four bytes that are no hexadecimal digits stand for a terminator, and behind them
      the two passes may disagree on where an escape begins, so a quote can be an ordinary byte. */
  predicate TakenPiece(p: Piece) {
    match p
    case Plain(c) => c != '\\'
    case Short(e) => ShortEscape(e).Some?
    case Unit(h) => |h| == 4 && !(0xD800 <= Hex4(h) <= 0xDFFF)
    case Pair(_, _) => WellFormed(p)
  }

  function TakenBytes(p: Piece): string
    requires TakenPiece(p)
  {
    if p.Unit? && !FourHex(p.hex) then [NUL] else if p.Plain? then [p.c] else PieceBytes(p)
  }

  predicate AllTaken(ps: seq<Piece>) {
    ps == [] || (TakenPiece(ps[0]) && AllTaken(ps[1..]))
  }

  function TakenMeaning(ps: seq<Piece>): string
    requires AllTaken(ps)
  {
    if ps == [] then "" else TakenBytes(ps[0]) + TakenMeaning(ps[1..])
  }

  /** A string ends at the first terminator inside it, as C has it. */
  ghost predicate CutAtNul(v: string, t: string) {
    v <= t && NulFree(v) && (v == t || t[|v|] == NUL)
  }

  /** The pieces make up the content; a last backslash that pass two still has to read takes the closing
      quote with it. */
  ghost predicate MadeOf(content: string, ps: seq<Piece>) {
    Content(ps) == content || (ps != [] && ps[|ps| - 1] == Short('\"') && Content(ps) == content + "\"")
  }

  lemma {:induction false} CutOnce(v: string, t: string)
    ensures CString(t) == v <==> CutAtNul(v, t)
    decreases |t|
  {
    if t == "" || t[0] == NUL {
    } else {
      CutOnce(if v == "" then "" else v[1..], t[1..]);
      assert t == [t[0]] + t[1..];
      if v != "" {
        assert v == [v[0]] + v[1..];
        CutNext(v, t);
      }
    }
  }

  lemma CutNext(v: string, t: string)
    requires v != "" && t != "" && t[0] != NUL
    ensures CutAtNul(v, t) <==> v[0] == t[0] && CutAtNul(v[1..], t[1..])
  {
    assert v == [v[0]] + v[1..] && t == [t[0]] + t[1..];
    if v[0] == t[0] && CutAtNul(v[1..], t[1..]) {
      assert v <= t;
      assert t[1..][|v| - 1..] == t[|v|..];
    }
    if CutAtNul(v, t) {
      assert v[1..] <= t[1..];
    }
  }

  lemma {:induction false} ScanClosed(t: string, k: nat, end: nat)
    requires k <= end < |t| && t[end] == '\"'
    ensures ScanString(t, k).Some? && ScanString(t, k).value.0 == end <==> Closed(t[k..end])
    decreases end - k
  {
    var u := t[k..end];
    if k == end {
    } else {
      assert u[0] == t[k];
      if t[k] == '\\' {
        if k + 2 <= end {
          assert u[2..] == t[k + 2..end];
          ScanClosed(t, k + 2, end);
        }
      } else if t[k] != '\"' {
        assert u[1..] == t[k + 1..end];
        ScanClosed(t, k + 1, end);
      }
    }
  }

  lemma DecodeTaken(s: string, i: nat, end: nat, p: Piece)
    requires TakenPiece(p) && Reads(s, i, PieceText(p)) && i + |PieceText(p)| <= end < |s|
    ensures Decode(s, i, end) == Prepend(TakenBytes(p), Decode(s, i + |PieceText(p)|, end))
  {
    if p.Unit? && !FourHex(p.hex) {
      var t := PieceText(p);
      ReadsAt(s, i, t, 0);
      ReadsAt(s, i, t, 1);
      ReadsPart(s, i, t, 2, 4);
      assert t[2..6] == p.hex;
    } else if p.Plain? {
      ReadsAt(s, i, [p.c], 0);
    } else {
      DecodePiece(s, i, end, p);
    }
  }

  /** Pieces that make up the content are what pass two reads. */
  lemma {:induction false} PiecesDecoded(s: string, i: nat, end: nat, ps: seq<Piece>)
    requires i <= end < |s| && s[end] == '\"' && AllTaken(ps) && MadeOf(s[i..end], ps)
    ensures Decode(s, i, end) == Bytes(TakenMeaning(ps))
    decreases |ps|
  {
    if ps == [] {
      assert Content(ps) == "";
    } else {
      var t := PieceText(ps[0]);
      assert Content(ps) == t + Content(ps[1..]);
      if i + |t| <= end {
        PieceFirst(s, i, end, ps);
        DecodeTaken(s, i, end, ps[0]);
        PiecesDecoded(s, i + |t|, end, ps[1..]);
      } else {
        LastPiece(s, i, end, ps);
      }
    }
  }

  lemma SplitText(t: string, rest: string, u: string, c: string)
    requires t + rest == u + c && |t| <= |u|
    ensures u[..|t|] == t && rest == u[|t|..] + c
  {
    assert t == (u + c)[..|t|] && rest == (u + c)[|t|..];
  }

  lemma PieceFirst(s: string, i: nat, end: nat, ps: seq<Piece>)
    requires i <= end < |s| && ps != [] && MadeOf(s[i..end], ps) && i + |PieceText(ps[0])| <= end
    ensures var t := PieceText(ps[0]); Reads(s, i, t) && MadeOf(s[i + |t|..end], ps[1..])
  {
    var t, rest := PieceText(ps[0]), Content(ps[1..]);
    var u := s[i..end];
    assert Content(ps) == t + rest;
    hide PieceText;
    assert u[..|t|] == s[i..i + |t|] && u[|t|..] == s[i + |t|..end];
    if Content(ps) == u {
      assert u + "" == u;
      SplitText(t, rest, u, "");
      hide Content;
      assert u[|t|..] + "" == u[|t|..];
    } else {
      SplitText(t, rest, u, "\"");
      NoContent(ps[1..]);
      hide Content;
      assert ps[1..] != [] && ps[1..][|ps| - 2] == ps[|ps| - 1];
    }
  }

  lemma LastPiece(s: string, i: nat, end: nat, ps: seq<Piece>)
    requires i <= end < |s| && s[end] == '\"' && ps != [] && AllTaken(ps) && MadeOf(s[i..end], ps)
    requires i + |PieceText(ps[0])| > end
    ensures Decode(s, i, end) == Bytes(TakenMeaning(ps))
  {
    var u := s[i..end];
    assert Content(ps) == PieceText(ps[0]) + Content(ps[1..]);
    assert |Content(ps)| == |u| + 1;
    assert Content(ps[1..]) == "";
    NoContent(ps[1..]);
    assert ps[0] == Short('\"') && u + "\"" == "\\\"";
    assert i + 1 == end && s[i] == u[0] == '\\';
    assert TakenMeaning(ps) == "\"" + "";
  }

  lemma NoContent(ps: seq<Piece>)
    ensures Content(ps) == "" <==> ps == []
  {
  }

  /** What pass two reads is made of pieces. */
  lemma {:induction false} PiecesOf(s: string, i: nat, end: nat) returns (ps: seq<Piece>)
    requires i <= end < |s| && s[end] == '\"' && Decode(s, i, end).Bytes?
    ensures AllTaken(ps) && MadeOf(s[i..end], ps) && Decode(s, i, end) == Bytes(TakenMeaning(ps))
    decreases |s| - i
  {
    if i == end {
      ps := [];
    } else {
      var p := PieceAt(s, i, end);
      var n := i + |PieceText(p)|;
      if n <= end {
        DecodeTaken(s, i, end, p);
        var rest := PiecesOf(s, n, end);
        ps := [p] + rest;
        PiecesJoin(s, i, n, end, p, rest);
      } else {
        ps := [p];
        OnePiece(p);
        assert s[i..end] == "\\" && PieceText(p) == "\\\"";
      }
    }
    hide Decode;
    hide PieceText;
  }

  lemma OnePiece(p: Piece)
    requires TakenPiece(p)
    ensures Content([p]) == PieceText(p) && AllTaken([p]) && TakenMeaning([p]) == TakenBytes(p)
  {
    assert [p][1..] == [] && Content([p][1..]) == "";
    assert TakenBytes(p) + "" == TakenBytes(p);
    hide PieceText;
    hide TakenBytes;
  }

  lemma PiecesJoin(s: string, i: nat, n: nat, end: nat, p: Piece, rest: seq<Piece>)
    requires i <= n <= end <= |s| && s[i..n] == PieceText(p) && MadeOf(s[n..end], rest)
    requires TakenPiece(p) && AllTaken(rest)
    ensures var ps := [p] + rest;
      MadeOf(s[i..end], ps) && AllTaken(ps) && TakenMeaning(ps) == TakenBytes(p) + TakenMeaning(rest)
  {
    var ps := [p] + rest;
    assert ps[1..] == rest;
    assert s[i..end] == s[i..n] + s[n..end];
    assert rest != [] ==> ps[|ps| - 1] == rest[|rest| - 1];
    assert PieceText(p) + (s[n..end] + "\"") == (PieceText(p) + s[n..end]) + "\"";
    hide PieceText;
    hide TakenPiece;
    hide TakenBytes;
  }

  /** The piece that pass two reads next. */
  lemma PieceAt(s: string, i: nat, end: nat) returns (p: Piece)
    requires i < end < |s| && s[end] == '\"' && Decode(s, i, end).Bytes?
    ensures TakenPiece(p) && Reads(s, i, PieceText(p))
    ensures i + |PieceText(p)| <= end
      || (p == Short('\"') && i + 1 == end && s[i] == '\\' && Decode(s, i, end) == Bytes(TakenBytes(p)))
  {
    if s[i] != '\\' {
      p := Plain(s[i]);
    } else if s[i + 1] == 'u' {
      var n := Utf16Literal(s, i, end).value.0;
      if n == 6 {
        p := Unit(s[i + 2..i + 6]);
      } else {
        p := Pair(s[i + 2..i + 6], s[i + 8..i + 12]);
        PairAt(s, i, end);
      }
      assert s[i..i + 6] == "\\u" + s[i + 2..i + 6];
    } else {
      p := Short(s[i + 1]);
      assert s[i..i + 2] == ['\\', s[i + 1]];
      if i + 1 == end {
        assert Prepend("\"", Bytes("")) == Bytes("\"" + "");
      }
    }
  }

  lemma PairAt(s: string, i: nat, end: nat)
    requires i + 12 <= end < |s| && s[i] == '\\' && s[i + 1] == 'u'
    requires Utf16Literal(s, i, end).Some? && Utf16Literal(s, i, end).value.0 == 12
    ensures var p := Pair(s[i + 2..i + 6], s[i + 8..i + 12]); TakenPiece(p) && Reads(s, i, PieceText(p))
  {
    var h, l := s[i + 2..i + 6], s[i + 8..i + 12];
    assert s[i..i + 12] == "\\u" + h + "\\u" + l;
    hide HexValue;
    hide Utf8;
  }

  lemma InQuotesAt(content: string)
    ensures var t, end := InQuotes(content), |content| + 1;
      end + 1 == |t| && t[1..end] == content && t[end] == '\"' && Reads(t, 1, content + "\"")
  {
  }

  lemma TwoPasses(content: string)
    ensures var t, end := InQuotes(content), |content| + 1;
      var a := ScanString(t, 1);
      StringOf(content) ==
        if a.Some? && a.value.0 == end && Decode(t, 1, end).Bytes? then Some(CString(Decode(t, 1, end).text)) else None
  {
    hide ScanString;
    hide Decode;
    hide CString;
  }

  lemma ReadInTwoPasses(content: string, v: string)
    ensures var t, end := InQuotes(content), |content| + 1;
      StringOf(content) == Some(v) <==>
      Closed(content) && Decode(t, 1, end).Bytes? && CutAtNul(v, Decode(t, 1, end).text)
  {
    hide *;
    var t, end := InQuotes(content), |content| + 1;
    InQuotesAt(content);
    TwoPasses(content);
    ScanClosed(t, 1, end);
    if Decode(t, 1, end).Bytes? {
      CutOnce(v, Decode(t, 1, end).text);
    }
  }

  lemma DecodedExactly(s: string, end: nat, text: string)
    requires 1 <= end < |s| && s[end] == '\"'
    ensures Decode(s, 1, end) == Bytes(text) <==>
      exists ps :: AllTaken(ps) && MadeOf(s[1..end], ps) && text == TakenMeaning(ps)
  {
    if Decode(s, 1, end) == Bytes(text) {
      var ps := PiecesOf(s, 1, end);
      assert AllTaken(ps) && MadeOf(s[1..end], ps) && text == TakenMeaning(ps);
    }
    if exists ps :: AllTaken(ps) && MadeOf(s[1..end], ps) && text == TakenMeaning(ps) {
      var ps :| AllTaken(ps) && MadeOf(s[1..end], ps) && text == TakenMeaning(ps);
      PiecesDecoded(s, 1, end, ps);
    }
    hide Decode;
    hide MadeOf;
    hide AllTaken;
    hide TakenMeaning;
  }

  /** The string between two quotes is taken exactly if it is closed and made of pieces that are taken, and
      stands for their bytes up to the first terminator. */
  lemma StringsExactly(content: string, v: string)
    ensures StringOf(content) == Some(v) <==>
      Closed(content)
      && exists ps :: AllTaken(ps) && MadeOf(content, ps) && CutAtNul(v, TakenMeaning(ps))
  {
    hide *;
    var t, end := InQuotes(content), |content| + 1;
    InQuotesAt(content);
    ReadInTwoPasses(content, v);
    if StringOf(content) == Some(v) {
      DecodedExactly(t, end, Decode(t, 1, end).text);
      var ps :| AllTaken(ps) && MadeOf(content, ps) && Decode(t, 1, end).text == TakenMeaning(ps);
      assert CutAtNul(v, TakenMeaning(ps));
    }
    if Closed(content) && exists ps :: AllTaken(ps) && MadeOf(content, ps) && CutAtNul(v, TakenMeaning(ps)) {
      var ps :| AllTaken(ps) && MadeOf(content, ps) && CutAtNul(v, TakenMeaning(ps));
      DecodedExactly(t, end, TakenMeaning(ps));
    }
  }

  /** A string of the standard stands for what the standard says, cut at a terminator inside it. */
  lemma StandardString(ps: seq<Piece>, v: string)
    requires (forall p :: p in ps ==> WellFormed(p)) && CutAtNul(v, Meaning(ps))
    ensures StringOf(Content(ps)) == Some(v)
  {
    hide *;
    var content := Content(ps);
    var t := InQuotes(content);
    InQuotesAt(content);
    DecodesByStandard(t, 1, ps);
    CutOnce(v, Meaning(ps));
    TwoPasses(content);
  }
}
