/** Exactly where a pointer leads, told by its tokens: section 4 of RFC 6901, and what the code makes of
    array positions. */
module PointerExact {
  import opened Text
  import opened Json
  import opened Pointer

  /** The reference token a text starts with: up to the next slash. */
  ghost function Token(s: string): (t: string)
    ensures t <= s && '/' !in t
    ensures |t| < |s| ==> s[|t|] == '/'
  {
    if s == "" || s[0] == '/' then "" else [s[0]] + Token(s[1..])
  }

  /** The key a token stands for; None if a tilde is not followed by `0` or `1`. */
  ghost function Unescaped(t: string): Option<string> {
    if t == "" then Some("")
    else if t[0] != '~' then Prefixed(t[0], Unescaped(t[1..]))
    else if |t| > 1 && t[1] == '0' then Prefixed('~', Unescaped(t[2..]))
    else if |t| > 1 && t[1] == '1' then Prefixed('/', Unescaped(t[2..]))
    else None
  }

  ghost function Prefixed(c: char, r: Option<string>): Option<string> {
    if r.Some? then Some([c] + r.value) else None
  }

  /** The decimal number of a text; bytes beyond `9` count for more than nine. */
  ghost function Numeral(t: string): nat
    requires forall i :: 0 <= i < |t| ==> t[i] >= '0'
  {
    if t == "" then 0 else 10 * Numeral(t[..|t| - 1]) + (t[|t| - 1] as int - '0' as int)
  }

  /** The position a token stands for. The empty one stands for 0, and numbers wrap around at 2^64. */
  ghost function Position(t: string): Option<nat> {
    if && (forall i :: 0 <= i < |t| ==> t[i] >= '0')
       && (t != "" ==> t[0] <= '9') && (t != "" && t[0] == '0' ==> |t| == 1)
    then Some(Numeral(t) % 0x1_0000_0000_0000_0000) else None
  }

  /** The token names that child: its position in an array, or the key of that member of an object and
      of none before it. */
  ghost predicate Names(j: Json, i: nat, t: string, cs: bool) {
    match j
    case Arr(es) => i < |es| && Position(t) == Some(i)
    case Obj(ms) =>
      var k := Unescaped(t);
      && i < |ms| && k.Some? && SameKey(ms[i].key, k.value, cs)
      && forall e :: 0 <= e < i ==> !SameKey(ms[e].key, k.value, cs)
    case _ => false
  }

  /** The tokens of a pointer, one after the other, name the children on the way. */
  ghost predicate Spells(j: Json, p: string, path: seq<nat>, cs: bool)
    decreases |path|
  {
    if p == "" || p[0] != '/' then path == []
    else
      var t := Token(p[1..]);
      && path != [] && path[0] < |Children(j)| && Names(j, path[0], t, cs)
      && Spells(Children(j)[path[0]], p[1 + |t|..], path[1..], cs)
  }

  /** Some token names no child of the item the tokens before it lead to. */
  ghost predicate Astray(j: Json, p: string, cs: bool)
    decreases |p|
  {
    && p != "" && p[0] == '/'
    && var t := Token(p[1..]);
      || (forall i :: 0 <= i < |Children(j)| ==> !Names(j, i, t, cs))
      || exists i :: 0 <= i < |Children(j)| && Names(j, i, t, cs) && Astray(Children(j)[i], p[1 + |t|..], cs)
  }

  // ---- one token ----

  lemma {:induction false} SkipsOneToken(s: string)
    ensures SkipToken(s) == s[|Token(s)|..]
  {
    if AtEnd(s) {
    } else {
      SkipsOneToken(s[1..]);
    }
  }

  lemma TokenFirst(s: string)
    requires !AtEnd(s)
    ensures Token(s) == [s[0]] + Token(s[1..]) && Token(s)[1..] == Token(s[1..])
  {
  }

  /** A name matches a token exactly if it is the key that the token stands for. */
  lemma {:induction false} MatchExact(name: string, p: string, cs: bool)
    ensures ComparePointers(name, p, cs) <==>
      Unescaped(Token(p)).Some? && SameKey(name, Unescaped(Token(p)).value, cs)
    decreases |p|
  {
    var u := Unescaped(Token(p));
    assert u.Some? ==> |Fold(u.value, cs)| == |u.value|;
    assert |Fold(name, cs)| == |name|;
    if AtEnd(p) {
    } else {
      TokenFirst(p);
      if name == "" {
      } else if p[0] != '~' {
        MatchExact(name[1..], p[1..], cs);
        MatchStep(name, p[0], Unescaped(Token(p[1..])), cs);
      } else if |p| > 1 && p[1] != '/' {
        TokenFirst(p[1..]);
        assert Token(p)[1] == p[1] && Token(p)[2..] == Token(p[2..]);
        MatchExact(name[1..], p[2..], cs);
        MatchTilde(name, p, Unescaped(Token(p[2..])), cs);
      } else {
        assert Token(p) == "~";
      }
    }
  }

  lemma MatchStep(name: string, c: char, r: Option<string>, cs: bool)
    requires name != ""
    ensures var u := Prefixed(c, r);
      u.Some? && SameKey(name, u.value, cs) <==>
      (if cs then name[0] == c else ToLower(name[0]) == ToLower(c)) && r.Some? && SameKey(name[1..], r.value, cs)
  {
    if r.Some? {
      var u := [c] + r.value;
      FoldStep(name, u, cs);
      assert u[1..] == r.value;
    }
  }

  /** No letter folds to a tilde or a slash. */
  lemma MatchTilde(name: string, p: string, r: Option<string>, cs: bool)
    requires name != "" && |p| > 1 && p[0] == '~' && p[1] != '/'
    ensures p[1] == '0' ==>
      var u := Prefixed('~', r);
      u.Some? && SameKey(name, u.value, cs) <==> name[0] == '~' && r.Some? && SameKey(name[1..], r.value, cs)
    ensures p[1] == '1' ==>
      var u := Prefixed('/', r);
      u.Some? && SameKey(name, u.value, cs) <==> name[0] == '/' && r.Some? && SameKey(name[1..], r.value, cs)
  {
    MatchStep(name, '~', r, cs);
    MatchStep(name, '/', r, cs);
  }

  // ---- positions ----

  lemma {:induction false} ScanNumeral(t: string, rest: string)
    requires forall i :: 0 <= i < |t| ==> t[i] >= '0'
    ensures ScanIndex(t + rest, 0) == ScanIndex(rest, Numeral(t) % WORD)
    decreases |t|
  {
    if t == "" {
      assert t + rest == rest;
    } else {
      var u, c := t[..|t| - 1], t[|t| - 1];
      ScanNumeral(u, [c] + rest);
      assert t + rest == u + ([c] + rest) && ([c] + rest)[1..] == rest;
      WrapStep(Numeral(u), c as int - '0' as int);
    }
  }

  lemma {:induction false} ScanFails(t: string, rest: string, acc: nat)
    requires '/' !in t && exists i :: 0 <= i < |t| && t[i] < '0'
    ensures !AtEnd(ScanIndex(t + rest, acc).0)
  {
    var i :| 0 <= i < |t| && t[i] < '0';
    if i == 0 {
    } else if t[0] >= '0' {
      assert t[1..][i - 1] == t[i] && (t + rest)[1..] == t[1..] + rest;
      ScanFails(t[1..], rest, (10 * acc + (t[0] as int - '0' as int)) % WORD);
    }
  }

  lemma TokenScanned(t: string, rest: string)
    requires AtEnd(rest) && forall i :: 0 <= i < |t| ==> t[i] >= '0'
    ensures ScanIndex(t + rest, 0) == (rest, Numeral(t) % WORD)
  {
    ScanNumeral(t, rest);
    ScanStops(rest, Numeral(t) % WORD);
    hide ScanIndex;
  }

  /** A token is taken for a position exactly if it stands for it. */
  lemma IndexExact(s: string)
    ensures DecodeIndex(s) == Position(Token(s))
  {
    var t := Token(s);
    var rest := s[|t|..];
    assert s == t + rest && AtEnd(rest);
    assert t == "" <==> AtEnd(s);
    assert s != "" && t != "" ==> t[0] == s[0] && (|t| == 1 <==> AtEnd(s[1..]));
    hide Token;
    if forall i :: 0 <= i < |t| ==> t[i] >= '0' {
      TokenScanned(t, rest);
    } else {
      ScanFails(t, rest, 0);
    }
    hide ScanIndex;
    hide Numeral;
  }

  // ---- steps and pointers ----

  lemma {:induction false} FindExact(ms: seq<Member<Json>>, p: string, cs: bool)
    ensures var f := FindToken(ms, p, cs);
      && (f < |ms| ==> ComparePointers(ms[f].key, p, cs))
      && forall e :: 0 <= e < f ==> !ComparePointers(ms[e].key, p, cs)
  {
    hide ComparePointers;
    if ms == [] {
    } else {
      FindExact(ms[1..], p, cs);
      assert forall e :: 0 < e < |ms| ==> ms[e] == ms[1..][e - 1];
    }
  }

  /** A step leads to a child exactly if the token names it. */
  lemma StepExact(j: Json, p: string, i: nat, cs: bool)
    ensures Step(j, p, cs) == Some(i) <==> Names(j, i, Token(p), cs)
  {
    match j {
      case Arr(es) => IndexExact(p);
      case Obj(ms) =>
        FindExact(ms, p, cs);
        forall e | 0 <= e < |ms|
          ensures ComparePointers(ms[e].key, p, cs) <==>
            Unescaped(Token(p)).Some? && SameKey(ms[e].key, Unescaped(Token(p)).value, cs)
        {
          MatchExact(ms[e].key, p, cs);
        }
      case _ =>
    }
    hide Token;
    hide Unescaped;
    hide SameKey;
    hide ComparePointers;
    hide FindToken;
    hide DecodeIndex;
    hide Position;
  }

  /** A pointer leads to a place exactly if its tokens spell the way to it. */
  lemma {:induction false} LookupExact(j: Json, p: string, path: seq<nat>, cs: bool)
    ensures GetItem(j, p, cs) == Some(path) <==> Spells(j, p, path, cs)
    decreases |p|
  {
    hide Step;
    hide Names;
    hide Token;
    hide Children;
    if p == "" || p[0] != '/' {
    } else {
      var t, s := Token(p[1..]), Step(j, p[1..], cs);
      SkipsOneToken(p[1..]);
      assert p[1..][|t|..] == p[1 + |t|..];
      if path != [] {
        StepExact(j, p[1..], path[0], cs);
        assert path == [path[0]] + path[1..];
      }
      if s.Some? {
        LookupExact(Children(j)[s.value], p[1 + |t|..], if path != [] then path[1..] else [], cs);
      }
    }
  }

  /** A pointer leads nowhere exactly if some token names no child. */
  lemma {:induction false} NowhereExact(j: Json, p: string, cs: bool)
    ensures GetItem(j, p, cs).None? <==> Astray(j, p, cs)
    decreases |p|
  {
    hide Step;
    hide Names;
    hide Token;
    hide Children;
    if p == "" || p[0] != '/' {
    } else {
      var t, s := Token(p[1..]), Step(j, p[1..], cs);
      SkipsOneToken(p[1..]);
      assert p[1..][|t|..] == p[1 + |t|..];
      forall i | 0 <= i < |Children(j)| ensures s == Some(i) <==> Names(j, i, t, cs) {
        StepExact(j, p[1..], i, cs);
      }
      if s.Some? {
        NowhereExact(Children(j)[s.value], p[1 + |t|..], cs);
      }
    }
  }
}
