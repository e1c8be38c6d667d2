/** The texts of JSON values, blanks and all, and what the parser makes of them. */
module Grammar {
  import opened Json
  import opened StringCodec
  import opened StringRfc
  import opened Parser

  // ---- the grammar: section 2 of RFC 8259 ----

  /** The text of a value, with its blanks. Strings are given by what stands between their quotes. */
  datatype Form =
    | Word(value: Json)
    | Numeral(text: string)
    | Quoted(content: string)
    | NoElements(blank: string)
    | Elements(items: seq<Item>)
    | NoMembers(blank: string)
    | Members(pairs: seq<Binding>)

  /** An element between blanks. */
  datatype Item = Item(before: string, form: Form, after: string)

  /** A name between blanks, a colon, and a value between blanks. */
  datatype Binding = Binding(before: string, name: string, behind: string, ahead: string, form: Form, after: string)

  /** The parser takes every byte up to the space for a blank, the four of the standard among them. */
  predicate Blank(t: string) {
    forall k :: 0 <= k < |t| ==> t[k] <= ' '
  }

  ghost function Written(x: Form): string
    decreases x, 0
  {
    match x
    case Word(Null) => "null"
    case Word(False) => "false"
    case Word(_) => "true"
    case Numeral(text) => text
    case Quoted(content) => InQuotes(content)
    case NoElements(blank) => "[" + (blank + "]")
    case Elements(items) => "[" + ItemsText(items)
    case NoMembers(blank) => "{" + (blank + "}")
    case Members(pairs) => "{" + PairsText(pairs)
  }

  function InQuotes(content: string): string {
    "\"" + (content + "\"")
  }

  /** The elements, with commas between them, and the closing bracket. */
  ghost function ItemsText(items: seq<Item>): string
    decreases items, 1
  {
    if items == [] then "" else items[0].before + ItemsBody(items)
  }

  /** The same without the first blanks. */
  ghost function ItemsBody(items: seq<Item>): string
    requires items != []
    decreases items, 0
  {
    Written(items[0].form) + (items[0].after + (if |items| == 1 then "]" else "," + ItemsText(items[1..])))
  }

  ghost function PairsText(pairs: seq<Binding>): string
    decreases pairs, 1
  {
    if pairs == [] then "" else pairs[0].before + PairsBody(pairs)
  }

  ghost function PairsBody(pairs: seq<Binding>): string
    requires pairs != []
    decreases pairs, 0
  {
    var p := pairs[0];
    InQuotes(p.name) + (p.behind + (":" + (p.ahead + (Written(p.form) + (p.after + PairsEnd(pairs))))))
  }

  /** What stands behind the first member. */
  ghost function PairsEnd(pairs: seq<Binding>): string
    requires pairs != []
    decreases pairs, -1
  {
    if |pairs| == 1 then "}" else "," + PairsText(pairs[1..])
  }

  /** What a string stands for; None if the parser refuses it or finds its end elsewhere. */
  ghost function StringOf(content: string): Option<string> {
    var r := ParseString(InQuotes(content), 0);
    if r.Ok? && r.next == |content| + 2 then Some(r.value) else None
  }

  /** A text of number bytes, no longer than the buffer, that `strtod` reads to its end. */
  predicate IsNumeral(t: string) {
    && 0 < |t| <= 63 && (t[0] == '-' || IsDigit(t[0])) && Strtod(t).0 == |t|
    && forall k :: 0 <= k < |t| ==> NumberChar(t[k])
  }

  /** The texts the parser takes. */
  ghost predicate Sane(x: Form) {
    match x
    case Word(v) => v == Null || v == False || v == True
    case Numeral(text) => IsNumeral(text)
    case Quoted(content) => StringOf(content).Some?
    case NoElements(blank) => Blank(blank)
    case Elements(items) => items != [] && SaneItems(items)
    case NoMembers(blank) => Blank(blank)
    case Members(pairs) => pairs != [] && SanePairs(pairs)
  }

  ghost predicate SaneItems(items: seq<Item>) {
    items == [] || (
      Blank(items[0].before) && Sane(items[0].form) && Blank(items[0].after) && SaneItems(items[1..]))
  }

  ghost predicate SanePairs(pairs: seq<Binding>) {
    pairs == [] || (
      var p := pairs[0];
      && Blank(p.before) && StringOf(p.name).Some? && Blank(p.behind) && Blank(p.ahead)
      && Sane(p.form) && Blank(p.after) && SanePairs(pairs[1..]))
  }

  /** The value of a text. */
  ghost function Value(x: Form): Json
    requires Sane(x)
  {
    match x
    case Word(v) => v
    case Numeral(text) => Number(Strtod(text).1)
    case Quoted(content) => Str(StringOf(content).value)
    case NoElements(_) => Arr([])
    case Elements(items) => Arr(ItemValues(items))
    case NoMembers(_) => Obj([])
    case Members(pairs) => Obj(PairValues(pairs))
  }

  ghost function ItemValues(items: seq<Item>): seq<Json>
    requires SaneItems(items)
  {
    if items == [] then [] else [Value(items[0].form)] + ItemValues(items[1..])
  }

  ghost function PairValues(pairs: seq<Binding>): seq<Member<Json>>
    requires SanePairs(pairs)
  {
    if pairs == [] then []
    else [Member(StringOf(pairs[0].name).value, Value(pairs[0].form))] + PairValues(pairs[1..])
  }

  // ---- whitespace ----

  lemma {:induction false} FirstVisibleAt(s: string, i: nat, n: nat)
    requires i + n < |s| && s[i + n] > ' ' && forall k :: i <= k < i + n ==> s[k] <= ' '
    ensures FirstVisible(s, i) == i + n
    decreases n
  {
    if n == 0 {
    } else {
      FirstVisibleAt(s, i + 1, n - 1);
    }
  }

  /** Blanks are skipped up to the next visible byte. */
  lemma SkipsBlank(s: string, i: nat, blank: string, rest: string)
    requires Blank(blank) && rest != "" && rest[0] > ' ' && Reads(s, i, blank + rest)
    ensures i + |blank| < |s| && s[i + |blank|] == rest[0]
    ensures SkipSpace(s, i) == i + |blank| && Reads(s, i + |blank|, rest)
  {
    ReadsSplit(s, i, blank, rest);
    ReadsAt(s, i + |blank|, rest, 0);
    forall k | i <= k < i + |blank| ensures s[k] <= ' ' {
      ReadsAt(s, i, blank, k - i);
    }
    FirstVisibleAt(s, i, |blank|);
  }

  /** From a visible byte on nothing is skipped. */
  lemma SkipsNothing(s: string, i: nat)
    requires i < |s| && s[i] > ' '
    ensures SkipSpace(s, i) == i
  {
  }

  // ---- words and numbers ----

  lemma NoWord(s: string, i: nat, t: string)
    requires i < |s| && t != "" && s[i] != t[0]
    ensures !Literal(s, i, t)
  {
    if i + |t| <= |s| {
      assert s[i..i + |t|][0] == s[i];
    }
  }

  lemma NoWords(s: string, i: nat)
    requires i < |s| && s[i] != 'n' && s[i] != 'f' && s[i] != 't'
    ensures !Literal(s, i, "null") && !Literal(s, i, "false") && !Literal(s, i, "true")
  {
    NoWord(s, i, "null");
    NoWord(s, i, "false");
    NoWord(s, i, "true");
  }

  /** A number ends where no number byte follows. */
  predicate Stops(s: string, i: nat) {
    i >= |s| || !NumberChar(s[i])
  }

  lemma {:induction false} RunOfText(s: string, i: nat, t: string, n: nat)
    requires Reads(s, i, t) && |t| <= n && Stops(s, i + |t|)
    requires forall k :: 0 <= k < |t| ==> NumberChar(t[k])
    ensures NumberRun(s, i, n) == |t|
    decreases |t|
  {
    if t == "" {
    } else {
      ReadsAt(s, i, t, 0);
      assert t == [t[0]] + t[1..];
      ReadsSplit(s, i, [t[0]], t[1..]);
      RunOfText(s, i + 1, t[1..], n - 1);
    }
  }

  /** `strtod` reads this much of the number bytes at `i`, which are cut off after 63. */
  ghost predicate Ends(s: string, i: nat, n: nat)
    requires i <= |s|
  {
    Strtod(s[i..i + NumberRun(s, i, 63)]).0 == n
  }

  lemma StopsEnds(s: string, i: nat, t: string)
    requires IsNumeral(t) && Reads(s, i, t) && Stops(s, i + |t|)
    ensures Ends(s, i, |t|)
  {
    var bound: nat := 63;
    RunOfText(s, i, t, bound);
    hide NumberRun;
    hide Strtod;
  }

  lemma {:induction false} ValueOfPrefix(t: string, u: string, i: nat, j: nat)
    requires j <= |u| <= |t| && forall k :: 0 <= k < |u| ==> t[k] == u[k]
    ensures DigitsValue(t, i, j) == DigitsValue(u, i, j)
    decreases j
  {
    if i < j {
      ValueOfPrefix(t, u, i, j - 1);
    }
  }

  lemma {:induction false} RunOfPrefix(t: string, n: nat, i: nat)
    requires i <= n <= |t| && DigitRun(t, i) <= n
    ensures DigitRun(t[..n], i) == DigitRun(t, i)
    decreases n - i
  {
    if i < n && IsDigit(t[i]) {
      RunOfPrefix(t, n, i + 1);
    }
  }

  lemma ExponentOfPrefix(t: string, k: nat)
    requires k <= |t|
    ensures var n := Exponent(t, k).0; n <= |t| && Exponent(t[..n], k) == Exponent(t, k)
  {
    var n := Exponent(t, k).0;
    if n > k {
      var p := if k + 1 < |t| && (t[k + 1] == '+' || t[k + 1] == '-') then k + 2 else k + 1;
      RunOfPrefix(t, n, p);
      ValueOfPrefix(t, t[..n], p, n);
    }
    hide DigitRun;
    hide DigitsValue;
  }

  /** Where `strtod` finds the digits: behind the sign, up to the point, and up to the exponent. */
  ghost predicate Scanned(t: string, i: nat, j: nat, k: nat) {
    && i == (if t != "" && (t[0] == '+' || t[0] == '-') then 1 else 0) <= |t|
    && j == DigitRun(t, i)
    && k == if j < |t| && t[j] == '.' then DigitRun(t, j + 1) else j
  }

  lemma StrtodScanned(t: string, i: nat, j: nat, k: nat)
    requires Scanned(t, i, j, k)
    ensures i <= j <= k <= |t|
    ensures Strtod(t) == if j == i && k <= j + 1 then (0, 0.0)
      else (Exponent(t, k).0, Scaled(t, i, j, k, Exponent(t, k).1))
  {
    hide DigitRun;
    hide Scaled;
    hide Exponent;
  }

  lemma ScannedPrefix(t: string, i: nat, j: nat, k: nat, n: nat)
    requires Scanned(t, i, j, k) && i <= j <= k <= n <= |t| && n > 0
    ensures Scanned(t[..n], i, j, k)
  {
    hide DigitRun;
    RunOfPrefix(t, n, i);
    if k > j {
      RunOfPrefix(t, n, j + 1);
    }
  }

  lemma ScaledPrefix(t: string, i: nat, j: nat, k: nat, n: nat, exponent: int)
    requires j <= k <= n <= |t| && n > 0
    ensures Scaled(t[..n], i, j, k, exponent) == Scaled(t, i, j, k, exponent)
  {
    hide DigitsValue;
    hide Pow10;
    ValueOfPrefix(t, t[..n], i, j);
    ValueOfPrefix(t, t[..n], j + 1, k);
  }

  /** `strtod` reads the part that it used to the same value. */
  lemma StrtodPrefix(t: string)
    ensures var (n, d) := Strtod(t); n > 0 ==> Strtod(t[..n]) == (n, d)
  {
    var i := if t != "" && (t[0] == '+' || t[0] == '-') then 1 else 0;
    var j := DigitRun(t, i);
    var k := if j < |t| && t[j] == '.' then DigitRun(t, j + 1) else j;
    StrtodScanned(t, i, j, k);
    var n := Strtod(t).0;
    hide DigitRun;
    hide Strtod;
    hide Exponent;
    if n > 0 {
      ExponentOfPrefix(t, k);
      ScannedPrefix(t, i, j, k, n);
      ScaledPrefix(t, i, j, k, n, Exponent(t, k).1);
      hide Scanned;
      hide Scaled;
      StrtodScanned(t[..n], i, j, k);
    }
  }

  lemma ParsesNumeral(s: string, i: nat, t: string)
    requires IsNumeral(t) && Reads(s, i, t) && i < |s| && Ends(s, i, |t|)
    ensures ParseNumber(s, i) == Ok(Number(Strtod(t).1), i + |t|)
  {
    hide Strtod;
    hide NumberRun;
    hide NumberChar;
    var run := s[i..i + NumberRun(s, i, 63)];
    StrtodPrefix(run);
    assert run[..|t|] == t;
  }

  // ---- strings ----

  /** Pass one sees no more than the bytes up to the closing quote. */
  lemma {:induction false} ScanLocal(s: string, i: nat, t: string, k: nat)
    requires Reads(s, i, t) && k <= |t|
    ensures var a, b := ScanString(t, k), ScanString(s, i + k);
      && (a.Some? ==> b == Some((i + a.value.0, a.value.1)))
      && (b.Some? && b.value.0 < i + |t| ==> a == Some((b.value.0 - i, b.value.1)))
    decreases |t| - k
  {
    if k < |t| {
      ReadsAt(s, i, t, k);
      if t[k] == '\\' {
        if k + 1 < |t| {
          ScanLocal(s, i, t, k + 2);
        }
      } else if t[k] != '\"' {
        ScanLocal(s, i, t, k + 1);
      }
    }
    hide Reads;
  }

  function Moved(d: Decoded, i: nat): Decoded {
    match d
    case Bytes(_) => d
    case Refused(at) => Refused(at + i)
  }

  lemma UnitLocal(s: string, i: nat, t: string, k: nat, end: nat)
    requires Reads(s, i, t) && k <= end <= |t|
    ensures Utf16Literal(t, k, end) == Utf16Literal(s, i + k, i + end)
  {
    if end - k >= 6 {
      ReadsPart(s, i, t, k + 2, 4);
    }
    if end - k >= 12 {
      ReadsPart(s, i, t, k + 8, 4);
      ReadsAt(s, i, t, k + 6);
      ReadsAt(s, i, t, k + 7);
    }
    hide Hex4;
    hide Utf8;
    hide Reads;
    hide PairCodepoint;
  }

  /** Pass two neither. */
  lemma {:induction false} DecodeLocal(s: string, i: nat, t: string, k: nat, end: nat)
    requires Reads(s, i, t) && end < |t|
    ensures i + end < |s| && Moved(Decode(t, k, end), i) == Decode(s, i + k, i + end)
    decreases |t| - k
  {
    hide Utf16Literal;
    hide Reads;
    ReadsEnd(s, i, t);
    if k < end {
      ReadsAt(s, i, t, k);
      ReadsAt(s, i, t, k + 1);
      if t[k] != '\\' {
        DecodeLocal(s, i, t, k + 1, end);
      } else if t[k + 1] == 'u' {
        UnitLocal(s, i, t, k, end);
        if Utf16Literal(t, k, end).Some? {
          DecodeLocal(s, i, t, k + Utf16Literal(t, k, end).value.0, end);
        }
      } else {
        DecodeLocal(s, i, t, k + 2, end);
      }
    }
  }

  lemma StringLocal(s: string, i: nat, t: string, n: nat)
    requires t != "" && Reads(s, i, t) && i < |s|
    ensures var a, b := ParseString(t, 0), ParseString(s, i);
      && (a.Ok? && a.next == n ==> b == Ok(a.value, i + n))
      && (b.Ok? && b.next == i + n && n <= |t| ==> a == Ok(b.value, n))
  {
    ReadsAt(s, i, t, 0);
    ScanLocal(s, i, t, 1);
    var a := ScanString(t, 1);
    if a.Some? {
      DecodeLocal(s, i, t, 1, a.value.0);
    }
    hide ScanString;
    hide Decode;
    hide CString;
  }

  lemma ParsesString(s: string, i: nat, content: string)
    requires StringOf(content).Some? && Reads(s, i, InQuotes(content))
    ensures i < |s| && s[i] == '\"' && ParseString(s, i) == Ok(StringOf(content).value, i + |InQuotes(content)|)
  {
    ReadsAt(s, i, InQuotes(content), 0);
    StringLocal(s, i, InQuotes(content), |content| + 2);
    hide ParseString;
    hide Reads;
  }

  // ---- one step of the parser each ----

  /** What the parser makes of the text of a value when `depth` containers are open. */
  ghost predicate Yields<T>(r: Parsed<T>, value: T, next: nat, fits: bool) {
    if fits then r == Ok(value, next) else r.Err?
  }

  ghost predicate Fits(nesting: nat, depth: nat) {
    depth + nesting <= NESTING_LIMIT
  }

  lemma ArrayStep(s: string, i: nat, p: nat, depth: nat)
    requires i < p < |s| && SkipSpace(s, i + 1) == p
    ensures depth >= NESTING_LIMIT ==> ParseArray(s, i, depth).Err?
    ensures depth < NESTING_LIMIT && s[p] == ']' ==> ParseArray(s, i, depth) == Ok(Arr([]), p + 1)
    ensures depth < NESTING_LIMIT && s[p] != ']' ==>
      var r := ParseElems(s, p - 1, depth + 1);
      if r.Ok? then ParseArray(s, i, depth) == Ok(Arr(r.value), r.next) else ParseArray(s, i, depth).Err?
  {
    hide ParseElems;
  }

  lemma ObjectStep(s: string, i: nat, p: nat, depth: nat)
    requires i < p < |s| && SkipSpace(s, i + 1) == p
    ensures depth >= NESTING_LIMIT ==> ParseObject(s, i, depth).Err?
    ensures depth < NESTING_LIMIT && s[p] == '}' ==> ParseObject(s, i, depth) == Ok(Obj([]), p + 1)
    ensures depth < NESTING_LIMIT && s[p] != '}' ==>
      var r := ParseMembers(s, p - 1, depth + 1);
      if r.Ok? then ParseObject(s, i, depth) == Ok(Obj(r.value), r.next) else ParseObject(s, i, depth).Err?
  {
    hide ParseMembers;
  }

  /** One element: `e` is the position behind its text, `q` the visible byte after that. */
  lemma ElemStep(s: string, i: nat, p: nat, e: nat, q: nat, j: Json, fits: bool, depth: nat)
    requires i < p < |s| && SkipSpace(s, i + 1) == p && e <= q < |s| && SkipSpace(s, e) == q
    requires Yields(ParseValue(s, p, depth), j, e, fits)
    ensures !fits ==> ParseElems(s, i, depth).Err?
    ensures fits && s[q] == ']' ==> ParseElems(s, i, depth) == Ok([j], q + 1)
    ensures fits && s[q] == ',' ==>
      var r := ParseElems(s, q, depth);
      if r.Ok? then ParseElems(s, i, depth) == Ok([j] + r.value, r.next) else ParseElems(s, i, depth).Err?
  {
    hide ParseValue;
    hide SkipSpace;
  }

  /** One member: `q` is the position behind its text, `p` the visible byte after that. */
  lemma MemberStep(s: string, i: nat, q: nat, p: nat, m: Member<Json>, fits: bool, depth: nat)
    requires i < |s| && q <= p < |s| && SkipSpace(s, q) == p
    requires Yields(ParseMember(s, i, depth), m, q, fits)
    ensures !fits ==> ParseMembers(s, i, depth).Err?
    ensures fits && s[p] == '}' ==> ParseMembers(s, i, depth) == Ok([m], p + 1)
    ensures fits && s[p] == ',' ==>
      var r := ParseMembers(s, p, depth);
      if r.Ok? then ParseMembers(s, i, depth) == Ok([m] + r.value, r.next) else ParseMembers(s, i, depth).Err?
  {
    hide ParseMember;
    hide SkipSpace;
  }

  /** The name ends at `n`, the colon stands at `c`, and the value starts at `v` and ends at `e`. */
  lemma NameStep(s: string, i: nat, p: nat, k: string, n: nat, c: nat, v: nat, j: Json, e: nat, fits: bool, depth: nat)
    requires i < p < |s| && SkipSpace(s, i + 1) == p && ParseString(s, p) == Ok(k, n)
    requires n <= c < |s| && SkipSpace(s, n) == c && s[c] == ':' && SkipSpace(s, c + 1) == v
    requires Yields(ParseValue(s, v, depth), j, e, fits)
    ensures Yields(ParseMember(s, i, depth), Member(k, j), e, fits)
  {
    hide ParseValue;
    hide ParseString;
    hide SkipSpace;
  }

  lemma FitsElems(es: seq<Json>, depth: nat)
    requires es != []
    ensures Fits(NestingElems(es), depth) <==> Fits(Nesting(es[0]), depth) && Fits(NestingElems(es[1..]), depth)
  {
    hide Nesting;
  }

  lemma FitsMembers(ms: seq<Member<Json>>, depth: nat)
    requires ms != []
    ensures Fits(NestingMembers(ms), depth)
       <==> Fits(Nesting(ms[0].value), depth) && Fits(NestingMembers(ms[1..]), depth)
  {
    hide Nesting;
  }

  lemma NoElems()
    ensures NestingElems([]) == 0 && NestingMembers([]) == 0
  {
  }

  // ---- parsing a text of the grammar ----

  /** A text starts with a visible byte that is no closing bracket. */
  lemma FormHead(x: Form)
    requires Sane(x)
    ensures var t := Written(x); t != "" && t[0] > ' ' && t[0] != ']' && t[0] != '}'
  {
    hide StringOf;
    hide SaneItems;
    hide SanePairs;
    hide Strtod;
  }

  lemma BodyHead(items: seq<Item>)
    requires items != [] && SaneItems(items)
    ensures var t := ItemsBody(items); t != "" && t[0] > ' ' && t[0] != ']'
  {
    FormHead(items[0].form);
    hide Written;
    hide Sane;
  }

  /** What stands behind a value. */
  ghost predicate Behind(t: string) {
    t != "" && !NumberChar(t[0])
  }

  lemma BlankBehind(blank: string, t: string)
    requires Blank(blank) && t != "" && t[0] in {',', ']', '}'}
    ensures Behind(blank + t)
  {
  }

  lemma StopsBehind(s: string, i: nat, t: string, rest: string)
    requires Reads(s, i, t + rest) && Behind(rest)
    ensures Reads(s, i, t) && Reads(s, i + |t|, rest) && Stops(s, i + |t|)
  {
    ReadsSplit(s, i, t, rest);
    ReadsAt(s, i + |t|, rest, 0);
  }

  /** A numeral ends where `strtod` stops. */
  ghost predicate EndsIn(s: string, i: nat, x: Form) {
    x.Numeral? ==> i <= |s| && Ends(s, i, |x.text|)
  }

  lemma FormEnds(s: string, i: nat, x: Form)
    requires Sane(x) && Reads(s, i, Written(x)) && Stops(s, i + |Written(x)|)
    ensures EndsIn(s, i, x)
  {
    if x.Numeral? {
      StopsEnds(s, i, x.text);
    }
  }

  lemma {:induction false} ParsesForm(s: string, i: nat, x: Form, depth: nat)
    requires Sane(x) && Reads(s, i, Written(x)) && EndsIn(s, i, x) && depth <= NESTING_LIMIT
    ensures Yields(ParseValue(s, i, depth), Value(x), i + |Written(x)|, Fits(Nesting(Value(x)), depth))
    decreases x, 2
  {
    hide Literal;
    hide ParseArray;
    hide ParseObject;
    hide ParseString;
    hide ParseNumber;
    hide ItemsText;
    hide PairsText;
    hide SaneItems;
    hide SanePairs;
    hide Strtod;
    FormHead(x);
    ReadsAt(s, i, Written(x), 0);
    if x.Word? {
      ParsesWord(s, i, x.value, depth);
    } else {
      NoWords(s, i);
      match x {
        case Numeral(t) => ParsesNumeral(s, i, t);
        case Quoted(content) => ParsesString(s, i, content);
        case NoElements(_) => ParsesArray(s, i, x, depth);
        case Elements(_) => ParsesArray(s, i, x, depth);
        case NoMembers(_) => ParsesObject(s, i, x, depth);
        case Members(_) => ParsesObject(s, i, x, depth);
      }
    }
  }

  lemma ParsesWord(s: string, i: nat, v: Json, depth: nat)
    requires Sane(Word(v)) && Reads(s, i, Written(Word(v)))
    ensures ParseValue(s, i, depth) == Ok(v, i + |Written(Word(v))|) && Nesting(v) == 0
  {
    ReadsAt(s, i, Written(Word(v)), 0);
    if v != Null {
      NoWord(s, i, "null");
      if v != False {
        NoWord(s, i, "false");
      }
    }
  }

  /** The four texts of a container, and what they stand for. */
  lemma Containers(blank: string, items: seq<Item>, pairs: seq<Binding>)
    ensures var x := NoElements(blank);
      Blank(blank) ==> Sane(x) && Written(x) == "[" + (blank + "]") && Value(x) == Arr([])
    ensures var x := NoMembers(blank);
      Blank(blank) ==> Sane(x) && Written(x) == "{" + (blank + "}") && Value(x) == Obj([])
    ensures var x := Elements(items);
      items != [] && SaneItems(items) ==>
        Sane(x) && Written(x) == "[" + ItemsText(items) && Value(x) == Arr(ItemValues(items))
    ensures var x := Members(pairs);
      pairs != [] && SanePairs(pairs) ==>
        Sane(x) && Written(x) == "{" + PairsText(pairs) && Value(x) == Obj(PairValues(pairs))
  {
    hide SaneItems;
    hide SanePairs;
    hide ItemsText;
    hide PairsText;
    hide ItemValues;
    hide PairValues;
  }

  lemma ContainerNesting(es: seq<Json>, ms: seq<Member<Json>>)
    ensures Nesting(Arr(es)) == 1 + NestingElems(es) && Nesting(Obj(ms)) == 1 + NestingMembers(ms)
  {
    hide NestingElems;
    hide NestingMembers;
  }

  lemma {:induction false} ParsesArray(s: string, i: nat, x: Form, depth: nat)
    requires (x.NoElements? || x.Elements?) && Sane(x) && Reads(s, i, Written(x)) && depth <= NESTING_LIMIT
    ensures i < |s|
    ensures Yields(ParseArray(s, i, depth), Value(x), i + |Written(x)|, Fits(Nesting(Value(x)), depth))
    decreases x, 1
  {
    hide ParseArray;
    hide Written;
    hide Value;
    hide Nesting;
    hide Yields;
    hide Reads;
    if x.NoElements? {
      assert x == NoElements(x.blank);
      ParsesNoElements(s, i, x.blank, depth);
    } else {
      assert x == Elements(x.items);
      ParsesElements(s, i, x.items, depth);
    }
  }

  lemma ParsesNoElements(s: string, i: nat, blank: string, depth: nat)
    requires Blank(blank) && Reads(s, i, Written(NoElements(blank)))
    ensures i < |s|
    ensures var x := NoElements(blank);
      Sane(x) && Yields(ParseArray(s, i, depth), Value(x), i + |Written(x)|, Fits(Nesting(Value(x)), depth))
  {
    hide ParseArray;
    hide ParseElems;
    hide Written;
    hide Value;
    hide Sane;
    hide Nesting;
    hide NestingElems;
    hide SkipSpace;
    hide Reads;
    NoElems();
    ContainerNesting([], []);
    Containers(blank, [], []);
    ReadsSplit(s, i, "[", blank + "]");
    ReadsEnd(s, i, "[");
    SkipsBlank(s, i + 1, blank, "]");
    ArrayStep(s, i, i + 1 + |blank|, depth);
  }

  lemma {:induction false} ParsesElements(s: string, i: nat, items: seq<Item>, depth: nat)
    requires items != [] && SaneItems(items) && Reads(s, i, Written(Elements(items))) && depth <= NESTING_LIMIT
    ensures i < |s|
    ensures var x := Elements(items);
      Sane(x) && Yields(ParseArray(s, i, depth), Value(x), i + |Written(x)|, Fits(Nesting(Value(x)), depth))
    decreases items, 2
  {
    hide ParseArray;
    hide ParseElems;
    hide Written;
    hide Value;
    hide Sane;
    hide Nesting;
    hide NestingElems;
    hide SkipSpace;
    hide Reads;
    hide ItemsBody;
    hide ItemValues;
    var blank, rest := items[0].before, ItemsBody(items);
    var p := i + 1 + |blank|;
    ContainerNesting(ItemValues(items), []);
    Containers(blank, items, []);
    assert ItemsText(items) == blank + rest;
    ReadsSplit(s, i, "[", blank + rest);
    ReadsEnd(s, i, "[");
    BodyHead(items);
    SkipsBlank(s, i + 1, blank, rest);
    ArrayStep(s, i, p, depth);
    if depth < NESTING_LIMIT {
      SkipsNothing(s, p);
      ParsesItems(s, p - 1, p, items, depth + 1);
    }
  }

  /** The elements from the first visible byte at `p` on; `i` is the byte the loop stands on before it. */
  lemma {:induction false} ParsesItems(s: string, i: nat, p: nat, items: seq<Item>, depth: nat)
    requires items != [] && SaneItems(items) && depth <= NESTING_LIMIT
    requires i < p < |s| && SkipSpace(s, i + 1) == p && Reads(s, p, ItemsBody(items))
    ensures var es := ItemValues(items);
      Yields(ParseElems(s, i, depth), es, p + |ItemsBody(items)|, Fits(NestingElems(es), depth))
    decreases items, 1
  {
    hide *;
    var x, after := items[0].form, items[0].after;
    var t := Written(x);
    var e := p + |t|;
    var q := e + |after|;
    OneItem(items);
    ItemsEnd(items);
    BlankBehind(after, ItemTail(items));
    StopsBehind(s, p, t, after + ItemTail(items));
    FormEnds(s, p, x);
    ParsesForm(s, p, x, depth);
    SkipsBlank(s, e, after, ItemTail(items));
    var fits := Fits(Nesting(Value(x)), depth);
    ElemStep(s, i, p, e, q, Value(x), fits, depth);
    if |items| == 1 {
      LastElem(ParseElems(s, i, depth), Value(x), q + 1, depth);
    } else {
      var rest := items[1..];
      ReadsSplit(s, q, ",", rest[0].before + ItemsBody(rest));
      OneItem(rest);
      BodyHead(rest);
      SkipsBlank(s, q + 1, rest[0].before, ItemsBody(rest));
      ParsesItems(s, q, q + 1 + |rest[0].before|, rest, depth);
      var r := ParseElems(s, q, depth);
      MoreElems(ParseElems(s, i, depth), Value(x), ItemValues(rest), r, p + |ItemsBody(items)|, depth);
    }
  }

  ghost function ItemTail(items: seq<Item>): string
    requires items != []
  {
    if |items| == 1 then "]" else "," + ItemsText(items[1..])
  }

  lemma OneItem(items: seq<Item>)
    requires items != [] && SaneItems(items)
    ensures var m := items[0];
      && Blank(m.before) && Sane(m.form) && Blank(m.after) && SaneItems(items[1..])
      && ItemsBody(items) == Written(m.form) + (m.after + ItemTail(items))
      && ItemValues(items) == [Value(m.form)] + ItemValues(items[1..])
  {
    hide Written;
    hide Sane;
    hide Value;
  }

  lemma ItemsEnd(items: seq<Item>)
    requires items != []
    ensures |items| == 1 ==> ItemTail(items) == "]" && items[1..] == []
    ensures |items| > 1 ==> ItemTail(items) == "," + (items[1].before + ItemsBody(items[1..]))
    ensures ItemTail(items) != "" && ItemTail(items)[0] == if |items| == 1 then ']' else ','
  {
    hide ItemsBody;
  }

  lemma LastElem(r: Parsed<seq<Json>>, j: Json, next: nat, depth: nat)
    requires if Fits(Nesting(j), depth) then r == Ok([j], next) else r.Err?
    requires depth <= NESTING_LIMIT
    ensures Yields(r, [j] + ItemValues([]), next, Fits(NestingElems([j] + ItemValues([])), depth))
  {
    FitsElems([j], depth);
    NoElems();
    assert [j] + ItemValues([]) == [j] && [j][1..] == [];
    hide NestingElems;
    hide Nesting;
  }

  lemma MoreElems(r: Parsed<seq<Json>>, j: Json, es: seq<Json>, rest: Parsed<seq<Json>>, next: nat, depth: nat)
    requires Yields(rest, es, next, Fits(NestingElems(es), depth))
    requires if Fits(Nesting(j), depth) && rest.Ok? then r == Ok([j] + rest.value, rest.next) else r.Err?
    ensures Yields(r, [j] + es, next, Fits(NestingElems([j] + es), depth))
  {
    FitsElems([j] + es, depth);
    assert ([j] + es)[1..] == es;
    hide NestingElems;
    hide Nesting;
  }

  lemma {:induction false} ParsesObject(s: string, i: nat, x: Form, depth: nat)
    requires (x.NoMembers? || x.Members?) && Sane(x) && Reads(s, i, Written(x)) && depth <= NESTING_LIMIT
    ensures i < |s|
    ensures Yields(ParseObject(s, i, depth), Value(x), i + |Written(x)|, Fits(Nesting(Value(x)), depth))
    decreases x, 1
  {
    hide ParseObject;
    hide Written;
    hide Value;
    hide Nesting;
    hide Yields;
    hide Reads;
    if x.NoMembers? {
      assert x == NoMembers(x.blank);
      ParsesNoMembers(s, i, x.blank, depth);
    } else {
      assert x == Members(x.pairs);
      ParsesBindings(s, i, x.pairs, depth);
    }
  }

  lemma ParsesNoMembers(s: string, i: nat, blank: string, depth: nat)
    requires Blank(blank) && Reads(s, i, Written(NoMembers(blank)))
    ensures i < |s|
    ensures var x := NoMembers(blank);
      Sane(x) && Yields(ParseObject(s, i, depth), Value(x), i + |Written(x)|, Fits(Nesting(Value(x)), depth))
  {
    hide ParseObject;
    hide ParseMembers;
    hide Written;
    hide Value;
    hide Sane;
    hide Nesting;
    hide NestingMembers;
    hide SkipSpace;
    hide Reads;
    NoElems();
    ContainerNesting([], []);
    Containers(blank, [], []);
    ReadsSplit(s, i, "{", blank + "}");
    ReadsEnd(s, i, "{");
    SkipsBlank(s, i + 1, blank, "}");
    ObjectStep(s, i, i + 1 + |blank|, depth);
  }

  lemma {:induction false} ParsesBindings(s: string, i: nat, pairs: seq<Binding>, depth: nat)
    requires pairs != [] && SanePairs(pairs) && Reads(s, i, Written(Members(pairs))) && depth <= NESTING_LIMIT
    ensures i < |s|
    ensures var x := Members(pairs);
      Sane(x) && Yields(ParseObject(s, i, depth), Value(x), i + |Written(x)|, Fits(Nesting(Value(x)), depth))
    decreases pairs, 2
  {
    hide ParseObject;
    hide ParseMembers;
    hide Written;
    hide Value;
    hide Sane;
    hide Nesting;
    hide NestingMembers;
    hide SkipSpace;
    hide Reads;
    hide PairsBody;
    hide PairValues;
    var blank, rest := pairs[0].before, PairsBody(pairs);
    var p := i + 1 + |blank|;
    ContainerNesting([], PairValues(pairs));
    Containers(blank, [], pairs);
    assert PairsText(pairs) == blank + rest;
    ReadsSplit(s, i, "{", blank + rest);
    ReadsEnd(s, i, "{");
    PairHead(pairs);
    SkipsBlank(s, i + 1, blank, rest);
    ObjectStep(s, i, p, depth);
    if depth < NESTING_LIMIT {
      SkipsNothing(s, p);
      ParsesPairs(s, p - 1, p, pairs, depth + 1);
    }
  }

  lemma PairHead(pairs: seq<Binding>)
    requires pairs != []
    ensures var t := PairsBody(pairs); t != "" && t[0] == '\"'
  {
    hide Written;
  }

  /** The parts of a pair, from its name on. */
  ghost function AfterName(p: Binding, tail: string): string {
    p.behind + (":" + (p.ahead + (Written(p.form) + (p.after + tail))))
  }

  lemma OnePair(pairs: seq<Binding>)
    requires pairs != [] && SanePairs(pairs)
    ensures var p := pairs[0];
      && Blank(p.before) && StringOf(p.name).Some? && Blank(p.behind) && Blank(p.ahead)
      && Sane(p.form) && Blank(p.after) && SanePairs(pairs[1..])
      && PairsBody(pairs) == InQuotes(p.name) + AfterName(p, PairsEnd(pairs))
      && PairValues(pairs) == [Member(StringOf(p.name).value, Value(p.form))] + PairValues(pairs[1..])
  {
    hide Written;
    hide Sane;
    hide Value;
    hide InQuotes;
    hide StringOf;
  }

  lemma PairsEndText(pairs: seq<Binding>)
    requires pairs != []
    ensures |pairs| == 1 ==> PairsEnd(pairs) == "}" && pairs[1..] == []
    ensures |pairs| > 1 ==> PairsEnd(pairs) == "," + (pairs[1].before + PairsBody(pairs[1..]))
    ensures PairsEnd(pairs) != "" && PairsEnd(pairs)[0] == if |pairs| == 1 then '}' else ','
  {
    hide PairsBody;
  }

  /** One pair from its name at `p` on. */
  lemma {:induction false} ParsesPair(s: string, i: nat, p: nat, pair: Binding, tail: string, depth: nat)
    requires StringOf(pair.name).Some? && Blank(pair.behind) && Blank(pair.ahead) && Sane(pair.form)
    requires Blank(pair.after) && tail != "" && tail[0] in {',', '}'} && depth <= NESTING_LIMIT
    requires i < p < |s| && SkipSpace(s, i + 1) == p && Reads(s, p, InQuotes(pair.name) + AfterName(pair, tail))
    ensures var e := p + |InQuotes(pair.name)| + |AfterName(pair, tail)| - |pair.after + tail|;
      && Reads(s, e, pair.after + tail)
      && Yields(ParseMember(s, i, depth), Member(StringOf(pair.name).value, Value(pair.form)), e,
           Fits(Nesting(Value(pair.form)), depth))
    decreases pair, 0
  {
    hide *;
    var t, name, x := Written(pair.form), InQuotes(pair.name), pair.form;
    var value := t + (pair.after + tail);
    NameParts(pair, tail);
    ReadsSplit(s, p, name, AfterName(pair, tail));
    ParsesString(s, p, pair.name);
    var n := p + |name|;
    SkipsBlank(s, n, pair.behind, ":" + (pair.ahead + value));
    var c := n + |pair.behind|;
    ReadsSplit(s, c, ":", pair.ahead + value);
    FormHead(x);
    SkipsBlank(s, c + 1, pair.ahead, value);
    var v := c + 1 + |pair.ahead|;
    BlankBehind(pair.after, tail);
    StopsBehind(s, v, t, pair.after + tail);
    FormEnds(s, v, x);
    ParsesForm(s, v, x, depth);
    NameStep(s, i, p, StringOf(pair.name).value, n, c, v, Value(x), v + |t|, Fits(Nesting(Value(x)), depth), depth);
  }

  lemma NameParts(pair: Binding, tail: string)
    ensures AfterName(pair, tail) == pair.behind + (":" + (pair.ahead + (Written(pair.form) + (pair.after + tail))))
    ensures |AfterName(pair, tail)| - |pair.after + tail| == |pair.behind| + 1 + |pair.ahead| + |Written(pair.form)|
  {
    hide Written;
  }

  lemma {:induction false} ParsesPairs(s: string, i: nat, p: nat, pairs: seq<Binding>, depth: nat)
    requires pairs != [] && SanePairs(pairs) && depth <= NESTING_LIMIT
    requires i < p < |s| && SkipSpace(s, i + 1) == p && Reads(s, p, PairsBody(pairs))
    ensures var ms := PairValues(pairs);
      Yields(ParseMembers(s, i, depth), ms, p + |PairsBody(pairs)|, Fits(NestingMembers(ms), depth))
    decreases pairs, 1
  {
    hide *;
    var pair, tail := pairs[0], PairsEnd(pairs);
    OnePair(pairs);
    PairsEndText(pairs);
    NameParts(pair, tail);
    ParsesPair(s, i, p, pair, tail, depth);
    var m := Member(StringOf(pair.name).value, Value(pair.form));
    var e := p + |InQuotes(pair.name)| + |AfterName(pair, tail)| - |pair.after + tail|;
    var q := e + |pair.after|;
    SkipsBlank(s, e, pair.after, tail);
    MemberStep(s, i, e, q, m, Fits(Nesting(m.value), depth), depth);
    if |pairs| == 1 {
      LastMember(ParseMembers(s, i, depth), m, q + 1, depth);
    } else {
      var rest := pairs[1..];
      ReadsSplit(s, q, ",", rest[0].before + PairsBody(rest));
      OnePair(rest);
      PairHead(rest);
      SkipsBlank(s, q + 1, rest[0].before, PairsBody(rest));
      ParsesPairs(s, q, q + 1 + |rest[0].before|, rest, depth);
      var r := ParseMembers(s, q, depth);
      MoreMembers(ParseMembers(s, i, depth), m, PairValues(rest), r, p + |PairsBody(pairs)|, depth);
    }
  }

  lemma LastMember(r: Parsed<seq<Member<Json>>>, m: Member<Json>, next: nat, depth: nat)
    requires if Fits(Nesting(m.value), depth) then r == Ok([m], next) else r.Err?
    requires depth <= NESTING_LIMIT
    ensures Yields(r, [m] + PairValues([]), next, Fits(NestingMembers([m] + PairValues([])), depth))
  {
    FitsMembers([m], depth);
    NoElems();
    assert [m] + PairValues([]) == [m] && [m][1..] == [];
    hide NestingMembers;
    hide Nesting;
  }

  lemma MoreMembers(r: Parsed<seq<Member<Json>>>, m: Member<Json>, ms: seq<Member<Json>>,
      rest: Parsed<seq<Member<Json>>>, next: nat, depth: nat)
    requires Yields(rest, ms, next, Fits(NestingMembers(ms), depth))
    requires if Fits(Nesting(m.value), depth) && rest.Ok? then r == Ok([m] + rest.value, rest.next) else r.Err?
    ensures Yields(r, [m] + ms, next, Fits(NestingMembers([m] + ms), depth))
  {
    FitsMembers([m] + ms, depth);
    assert ([m] + ms)[1..] == ms;
    hide NestingMembers;
    hide Nesting;
  }
}
