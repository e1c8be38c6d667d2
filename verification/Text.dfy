/** C strings as sequences of characters (one character a byte, the terminator left out),
    and the two orders on keys: bytewise, and bytewise after folding ASCII capitals. */
module Text {

  const NUL := '\0'

  /** The case rule of the public functions without "CaseSensitive" in their name. */
  const CI := false

  /** A C string holds no terminator inside. */
  predicate NulFree(s: string) {
    forall i :: 0 <= i < |s| ==> s[i] != NUL
  }

  /** `tolower` in the C locale. */
  function ToLower(c: char): char {
    if 'A' <= c <= 'Z' then (c as int + 32) as char else c
  }

  const CAPITALS := "ABCDEFGHIJKLMNOPQRSTUVWXYZ"
  const LETTERS := "abcdefghijklmnopqrstuvwxyz"

  /** The 26 letters of ASCII lose their case, and no other byte changes. */
  lemma LowerByTable(c: char, i: nat)
    ensures i < 26 ==> ToLower(CAPITALS[i]) == LETTERS[i]
    ensures c !in CAPITALS ==> ToLower(c) == c
  {
    if 'A' <= c <= 'Z' {
      assert CAPITALS[c as int - 'A' as int] == c;
    }
  }

  function Lower(s: string): string {
    seq(|s|, i requires 0 <= i < |s| => ToLower(s[i]))
  }

  /** The key as a comparison sees it. */
  function Fold(s: string, cs: bool): string {
    if cs then s else Lower(s)
  }

  /** Two keys name the same member. */
  predicate SameKey(a: string, b: string, cs: bool) {
    Fold(a, cs) == Fold(b, cs)
  }

  /** Lexicographic order; a proper prefix comes first, as its terminator is the least byte. */
  predicate LexLess(a: string, b: string) {
    b != "" && (a == "" || a[0] < b[0] || (a[0] == b[0] && LexLess(a[1..], b[1..])))
  }

  predicate KeyLess(a: string, b: string, cs: bool) {
    LexLess(Fold(a, cs), Fold(b, cs))
  }

  lemma {:induction false} LexTransitive(a: string, b: string, c: string)
    requires LexLess(a, b) && LexLess(b, c)
    ensures LexLess(a, c)
  {
    if a == "" || a[0] != b[0] || b[0] != c[0] {
    } else {
      LexTransitive(a[1..], b[1..], c[1..]);
    }
  }

  /** Exactly one of "less", "equal", "greater" holds. */
  lemma {:induction false} LexTrichotomy(a: string, b: string)
    ensures LexLess(a, b) || a == b || LexLess(b, a)
    ensures !(LexLess(a, b) && LexLess(b, a))
    ensures LexLess(a, b) ==> a != b
  {
    if a == "" || b == "" {
    } else {
      LexTrichotomy(a[1..], b[1..]);
      if a[1..] == b[1..] && a[0] == b[0] {
        assert a == [a[0]] + a[1..] == b;
      }
    }
  }

  /** The byte a cursor sees at position `i`; past the last byte it sees the terminator. */
  function ByteAt(s: string, i: nat): char {
    if i < |s| then s[i] else NUL
  }

  lemma {:induction false} LexFromFirstDifference(a: string, b: string, i: nat)
    requires NulFree(a) && NulFree(b)
    requires i <= |a| && i <= |b| && a[..i] == b[..i]
    requires ByteAt(a, i) != ByteAt(b, i)
    ensures LexLess(a, b) <==> ByteAt(a, i) < ByteAt(b, i)
    decreases i
  {
    if i > 0 {
      assert a[0] == a[..i][0] == b[..i][0] == b[0];
      assert a[1..][..i - 1] == a[..i][1..] == b[..i][1..] == b[1..][..i - 1];
      LexFromFirstDifference(a[1..], b[1..], i - 1);
    } else if |a| > 0 && |b| > 0 {
    } else {
      assert |b| > 0 ==> b[0] != NUL;
      assert |a| > 0 ==> a[0] != NUL;
    }
  }

  lemma LowerNulFree(s: string)
    requires NulFree(s)
    ensures NulFree(Lower(s))
  {
  }

  /** `strcmp` or its case-insensitive twin: the sign of the result is the order of the folded keys. */
  method CompareStrings(a: string, b: string, cs: bool) returns (r: int)
    requires NulFree(a) && NulFree(b)
    ensures r == 0 <==> SameKey(a, b, cs)
    ensures r < 0 <==> KeyLess(a, b, cs)
  {
    var fa, fb := Fold(a, cs), Fold(b, cs);
    LowerNulFree(a);
    LowerNulFree(b);
    var i := 0;
    while ByteAt(fa, i) == ByteAt(fb, i)
      invariant i <= |fa| && i <= |fb| && fa[..i] == fb[..i]
      decreases |fa| - i
    {
      if ByteAt(fa, i) == NUL {
        assert i == |fa| == |fb|;
        LexTrichotomy(fa, fb);
        return 0;
      }
      assert fa[..i + 1] == fa[..i] + [fa[i]] == fb[..i + 1];
      i := i + 1;
    }
    LexFromFirstDifference(fa, fb, i);
    r := ByteAt(fa, i) as int - ByteAt(fb, i) as int;
  }

  lemma Associate<T>(a: seq<T>, b: seq<T>, c: seq<T>)
    ensures a + (b + c) == (a + b) + c
  {
  }
}
