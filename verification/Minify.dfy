/** The minifier: what it makes of a text, and the in-place loop that does it. */
module Minify {
  import opened Text

  predicate Space(c: char) {
    c == ' ' || c == '\t' || c == '\r' || c == '\n'
  }

  /** Where a line comment ends, counted from behind its slashes. */
  function LineRest(s: string): (n: nat)
    ensures n <= |s|
  {
    if s == "" then 0 else if s[0] == '\n' then 1 else 1 + LineRest(s[1..])
  }

  /** Where a block comment ends, counted from behind its opening. */
  function BlockRest(s: string): (n: nat)
    ensures n <= |s|
  {
    if s == "" then 0 else if s[0] == '*' && ByteAt(s, 1) == '/' then 2 else 1 + BlockRest(s[1..])
  }

  /** What a slash outside strings drops: a comment, or itself. */
  function Slash(s: string): (n: nat)
    requires s != ""
    ensures 0 < n <= |s|
  {
    if ByteAt(s, 1) == '/' then 2 + LineRest(s[2..])
    else if ByteAt(s, 1) == '*' then 2 + BlockRest(s[2..])
    else 1
  }

  /** The minified text, from outside a string. */
  function Minified(s: string): string
    decreases |s|
  {
    if s == "" then ""
    else if Space(s[0]) then Minified(s[1..])
    else if s[0] == '/' then Minified(s[Slash(s)..])
    else if s[0] == '\"' then "\"" + Copied(s[1..])
    else [s[0]] + Minified(s[1..])
  }

  /** The minified text, from inside a string: any quote behind a backslash counts as escaped. */
  function Copied(s: string): string
    decreases |s|
  {
    if s == "" then ""
    else if s[0] == '\"' then "\"" + Minified(s[1..])
    else if s[0] == '\\' && ByteAt(s, 1) == '\"' then "\\\"" + Copied(s[2..])
    else [s[0]] + Copied(s[1..])
  }

  // ---- one step at a position ----

  lemma LineStep(s: string, r: nat)
    requires r < |s|
    ensures LineRest(s[r..]) == if s[r] == '\n' then 1 else 1 + LineRest(s[r + 1..])
  {
    assert s[r..][1..] == s[r + 1..];
  }

  lemma BlockStep(s: string, r: nat)
    requires r < |s|
    ensures BlockRest(s[r..]) == if s[r] == '*' && ByteAt(s, r + 1) == '/' then 2 else 1 + BlockRest(s[r + 1..])
  {
    assert s[r..][1..] == s[r + 1..];
    assert ByteAt(s[r..], 1) == ByteAt(s, r + 1);
  }

  lemma CopiedStep(s: string, r: nat)
    requires r < |s|
    ensures s[r] == '\"' ==> Copied(s[r..]) == "\"" + Minified(s[r + 1..])
    ensures s[r] == '\\' && ByteAt(s, r + 1) == '\"' ==> r + 2 <= |s| && Copied(s[r..]) == "\\\"" + Copied(s[r + 2..])
    ensures s[r] != '\"' && !(s[r] == '\\' && ByteAt(s, r + 1) == '\"') ==>
      Copied(s[r..]) == [s[r]] + Copied(s[r + 1..])
  {
    assert s[r..][1..] == s[r + 1..];
    assert r + 2 <= |s| ==> s[r..][2..] == s[r + 2..];
    assert ByteAt(s[r..], 1) == ByteAt(s, r + 1);
  }

  lemma MinifiedStep(s: string, r: nat)
    requires r < |s|
    ensures Space(s[r]) ==> Minified(s[r..]) == Minified(s[r + 1..])
    ensures s[r] == '/' ==> Minified(s[r..]) == Minified(s[r + Slash(s[r..])..])
    ensures s[r] == '\"' ==> Minified(s[r..]) == "\"" + Copied(s[r + 1..])
    ensures !Space(s[r]) && s[r] != '/' && s[r] != '\"' ==> Minified(s[r..]) == [s[r]] + Minified(s[r + 1..])
  {
    assert s[r..][1..] == s[r + 1..];
    var n := Slash(s[r..]);
    assert s[r..][n..] == s[r + n..];
  }

  lemma SlashStep(s: string, r: nat)
    requires r < |s|
    ensures ByteAt(s, r + 1) == '/' ==> r + 2 <= |s| && Slash(s[r..]) == 2 + LineRest(s[r + 2..])
    ensures ByteAt(s, r + 1) == '*' ==> r + 2 <= |s| && Slash(s[r..]) == 2 + BlockRest(s[r + 2..])
    ensures ByteAt(s, r + 1) != '/' && ByteAt(s, r + 1) != '*' ==> Slash(s[r..]) == 1
  {
    assert ByteAt(s[r..], 1) == ByteAt(s, r + 1);
    assert r + 2 <= |s| ==> s[r..][2..] == s[r + 2..];
  }

  // ---- the loops, in place ----

  /** From `r` on the array still holds the text and its terminator. */
  ghost predicate Ahead(a: array<char>, r: nat, text: string)
    reads a
  {
    r <= |text| < a.Length && a[|text|] == NUL && a[r..|text|] == text[r..]
  }

  lemma Sees(a: array<char>, r: nat, text: string)
    requires Ahead(a, r, text) && NulFree(text)
    ensures a[r] == ByteAt(text, r) && (a[r] != NUL <==> r < |text|)
    ensures r < |text| ==> a[r + 1] == ByteAt(text, r + 1) && Ahead(a, r + 1, text)
  {
    if r < |text| {
      assert a[r] == a[r..|text|][0] == text[r..][0];
      assert a[r + 1..|text|] == a[r..|text|][1..] == text[r..][1..] == text[r + 1..];
      assert r + 1 < |text| ==> a[r + 1] == a[r + 1..|text|][0] == text[r + 1..][0];
    }
  }

  /** `skip_oneline_comment`. */
  method SkipLine(a: array<char>, start: nat, ghost text: string) returns (r: nat)
    requires start + 2 <= |text| && Ahead(a, start + 2, text) && NulFree(text)
    ensures r == start + 2 + LineRest(text[start + 2..]) && Ahead(a, r, text)
  {
    hide Ahead;
    hide LineRest;
    r := start + 2;
    InRange(a, r, text);
    Sees(a, r, text);
    while a[r] != NUL
      invariant r <= |text| && Ahead(a, r, text) && r < a.Length && (a[r] != NUL <==> r < |text|)
      invariant start + 2 + LineRest(text[start + 2..]) == r + LineRest(text[r..])
      decreases |text| - r
    {
      LineStep(text, r);
      Sees(a, r, text);
      InRange(a, r + 1, text);
      Sees(a, r + 1, text);
      if a[r] == '\n' {
        return r + 1;
      }
      r := r + 1;
    }
    EmptyRests(text, r);
  }

  lemma InRange(a: array<char>, r: nat, text: string)
    requires Ahead(a, r, text)
    ensures r <= |text| < a.Length
  {
  }

  lemma EmptyRests(text: string, r: nat)
    requires r == |text|
    ensures LineRest(text[r..]) == 0 && BlockRest(text[r..]) == 0 && Minified(text[r..]) == ""
      && Copied(text[r..]) == ""
  {
  }

  /** `skip_multiline_comment`. */
  method SkipBlock(a: array<char>, start: nat, ghost text: string) returns (r: nat)
    requires start + 2 <= |text| && Ahead(a, start + 2, text) && NulFree(text)
    ensures r == start + 2 + BlockRest(text[start + 2..]) && Ahead(a, r, text)
  {
    hide Ahead;
    hide BlockRest;
    r := start + 2;
    InRange(a, r, text);
    Sees(a, r, text);
    while a[r] != NUL
      invariant r <= |text| && Ahead(a, r, text) && r < a.Length && (a[r] != NUL <==> r < |text|)
      invariant start + 2 + BlockRest(text[start + 2..]) == r + BlockRest(text[r..])
      decreases |text| - r
    {
      BlockStep(text, r);
      Sees(a, r, text);
      InRange(a, r + 1, text);
      Sees(a, r + 1, text);
      if a[r] == '*' && a[r + 1] == '/' {
        Sees(a, r + 1, text);
        return r + 2;
      }
      r := r + 1;
    }
    EmptyRests(text, r);
  }

  /** A byte written at or below the read position leaves what is ahead of it alone. */
  method Store(a: array<char>, w: nat, r: nat, c: char, ghost text: string)
    requires Ahead(a, r, text) && r < |text| && w <= r && (w == r ==> c == a[r])
    modifies a
    ensures Ahead(a, r, text) && a[..w + 1] == old(a[..w]) + [c]
  {
    a[w] := c;
  }

  /** `minify_string`: bytes move from `start` down to `into`. What has been written followed by what
      is still to come stays the same text. */
  method MinifyString(a: array<char>, start: nat, into: nat, ghost text: string) returns (r: nat, w: nat)
    requires into <= start < |text| && Ahead(a, start, text) && NulFree(text) && text[start] == '\"'
    modifies a
    ensures w <= r && start < r && Ahead(a, r, text)
    ensures a[..w] + Minified(text[r..]) == old(a[..into]) + Minified(text[start..])
  {
    hide Ahead;
    hide Minified;
    hide Copied;
    InRange(a, start, text);
    ghost var before := a[..into];
    MinifiedStep(text, start);
    Sees(a, start, text);
    Store(a, into, start, a[start], text);
    Sees(a, start, text);
    r, w := start + 1, into + 1;
    Associate(before, "\"", Copied(text[r..]));
    InRange(a, r, text);
    Sees(a, r, text);
    while a[r] != NUL
      invariant w <= r && start < r <= |text| < a.Length && Ahead(a, r, text) && (a[r] != NUL <==> r < |text|)
      invariant a[..w] + Copied(text[r..]) == before + Minified(text[start..])
      decreases |text| - r
    {
      var closed;
      r, w, closed := CopyByte(a, r, w, text);
      InRange(a, r, text);
      if closed {
        return;
      }
      Sees(a, r, text);
    }
    EmptyRests(text, r);
  }

  /** One round of the string loop. */
  method CopyByte(a: array<char>, r: nat, w: nat, ghost text: string) returns (r': nat, w': nat, closed: bool)
    requires w <= r < |text| && Ahead(a, r, text) && NulFree(text)
    modifies a
    ensures w' <= r' && r < r' && Ahead(a, r', text)
    ensures a[..w'] + (if closed then Minified(text[r'..]) else Copied(text[r'..])) == old(a[..w]) + Copied(text[r..])
  {
    hide Ahead;
    hide Minified;
    hide Copied;
    InRange(a, r, text);
    ghost var before := a[..w];
    CopiedStep(text, r);
    Sees(a, r, text);
    Store(a, w, r, a[r], text);
    Sees(a, r, text);
    if a[r] == '\"' {
      Associate(before, "\"", Minified(text[r + 1..]));
      return r + 1, w + 1, true;
    } else if a[r] == '\\' && a[r + 1] == '\"' {
      Store(a, w + 1, r + 1, a[r + 1], text);
      Sees(a, r + 1, text);
      assert before + "\\" + "\"" == before + "\\\"";
      Associate(before, "\\\"", Copied(text[r + 2..]));
      return r + 2, w + 2, false;
    }
    Associate(before, [text[r]], Copied(text[r + 1..]));
    return r + 1, w + 1, false;
  }

  /** `cJSON_Minify`: the array ends up with the minified text, terminated. It never writes past the
      position it reads, so nothing unread is lost. */
  method MinifyInPlace(a: array<char>, ghost text: string) returns (length: nat)
    requires |text| < a.Length && NulFree(text) && a[..|text|] == text && a[|text|] == NUL
    modifies a
    ensures length <= |text| && a[..length] == Minified(text) && a[length] == NUL
  {
    var r: nat, w: nat := 0, 0;
    assert a[0..|text|] == text[0..] && text[0..] == text;
    assert a[..0] + Minified(text) == Minified(text);
    hide Minified;
    Sees(a, 0, text);
    hide Ahead;
    while a[r] != NUL
      invariant w <= r <= |text| < a.Length && Ahead(a, r, text) && (a[r] != NUL <==> r < |text|)
      invariant a[..w] + Minified(text[r..]) == Minified(text)
      decreases |text| - r
    {
      r, w := MinifyRound(a, r, w, text);
      InRange(a, r, text);
      Sees(a, r, text);
    }
    EmptyRests(text, r);
    a[w] := NUL;
    length := w;
  }

  /** One round of the outer loop. */
  method MinifyRound(a: array<char>, r: nat, w: nat, ghost text: string) returns (r': nat, w': nat)
    requires w <= r < |text| && Ahead(a, r, text) && NulFree(text)
    modifies a
    ensures w' <= r' && r < r' && Ahead(a, r', text)
    ensures a[..w'] + Minified(text[r'..]) == old(a[..w]) + Minified(text[r..])
  {
    hide Ahead;
    hide Minified;
    hide Slash;
    MinifiedStep(text, r);
    Sees(a, r, text);
    InRange(a, r, text);
    if Space(a[r]) {
      return r + 1, w;
    } else if a[r] == '/' {
      r' := SkipSlash(a, r, text);
      return r', w;
    } else if a[r] == '\"' {
      r', w' := MinifyString(a, r, w, text);
    } else {
      ghost var before := a[..w];
      Store(a, w, r, a[r], text);
      Sees(a, r, text);
      Associate(before, [text[r]], Minified(text[r + 1..]));
      return r + 1, w + 1;
    }
  }

  method SkipSlash(a: array<char>, r: nat, ghost text: string) returns (r': nat)
    requires r < |text| && Ahead(a, r, text) && NulFree(text)
    ensures r' == r + Slash(text[r..]) && Ahead(a, r', text)
  {
    hide Ahead;
    hide Slash;
    SlashStep(text, r);
    Sees(a, r, text);
    InRange(a, r, text);
    if a[r + 1] == '/' {
      Sees(a, r + 1, text);
      r' := SkipLine(a, r, text);
    } else if a[r + 1] == '*' {
      Sees(a, r + 1, text);
      r' := SkipBlock(a, r, text);
    } else {
      r' := r + 1;
    }
  }
}
