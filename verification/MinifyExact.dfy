/** What minified text is, told position by position of the input: its bytes inside strings and those
    outside of them that are neither blank nor part of a comment, in order. */
module MinifyExact {
  import opened Text
  import opened Minify
  import MinifyPrint

  // ---- the class of a position ----

  /** Where the reader stands before a position. The second byte of what opens or closes a comment, and a
      quote behind a backslash, are passed over without a look at what they would mean elsewhere. */
  datatype Mode = Outside | Inside | Escaped | Line | BlockStart | Block | BlockEnd

  /** The mode behind `c`, with `ahead` following it. */
  function Next(m: Mode, c: char, ahead: char): Mode {
    match m
    case Outside =>
      if c == '\"' then Inside
      else if c == '/' && ahead == '/' then Line
      else if c == '/' && ahead == '*' then BlockStart
      else Outside
    case Inside => if c == '\"' then Outside else if c == '\\' && ahead == '\"' then Escaped else Inside
    case Escaped => Inside
    case Line => if c == '\n' then Outside else Line
    case BlockStart => Block
    case Block => if c == '*' && ahead == '/' then BlockEnd else Block
    case BlockEnd => Outside
  }

  function ModeAt(s: string, k: nat): Mode
    requires k <= |s|
  {
    if k == 0 then Outside else Next(ModeAt(s, k - 1), s[k - 1], ByteAt(s, k))
  }

  /** Inside a string, its quotes included; inside a comment, its delimiters included; one of the four blank
      characters of RFC 8259; a slash that opens no comment; anything else. */
  datatype Class = InString | InComment | Blank | Slash | Other

  function ClassAt(s: string, k: nat): Class
    requires k < |s|
  {
    var c := s[k];
    match ModeAt(s, k)
    case Inside => InString
    case Escaped => InString
    case Outside =>
      if c == '\"' then InString
      else if c == ' ' || c == '\t' || c == '\r' || c == '\n' then Blank
      else if c != '/' then Other
      else if ByteAt(s, k + 1) == '/' || ByteAt(s, k + 1) == '*' then InComment
      else Slash
    case _ => InComment
  }

  /** The bytes before `k` that are inside strings, or outside of them and of no other class. */
  function Kept(s: string, k: nat): string
    requires k <= |s|
  {
    if k == 0 then ""
    else Kept(s, k - 1) + if ClassAt(s, k - 1) in {InString, Other} then [s[k - 1]] else ""
  }

  // ---- the minified text consists of just these bytes ----

  /** What reading on in a mode makes of the rest of a text. */
  ghost function Rest(m: Mode, t: string): string {
    match m
    case Outside => Minified(t)
    case Inside => Copied(t)
    case Escaped => if t == "" then "" else [t[0]] + Copied(t[1..])
    case Line => Minified(t[LineRest(t)..])
    case BlockStart => if t == "" then "" else Minified(t[1 + BlockRest(t[1..])..])
    case Block => Minified(t[BlockRest(t)..])
    case BlockEnd => if t == "" then "" else Minified(t[1..])
  }

  lemma OutsideStep(s: string, k: nat)
    requires k < |s| && ModeAt(s, k).Outside?
    ensures Stepped(s, k)
  {
    hide Minified;
    hide Copied;
    hide LineRest;
    hide BlockRest;
    MinifiedStep(s, k);
    if s[k] == '/' {
      SlashDrops(s, k);
    }
    hide Minify.Slash;
  }

  /** What is left behind a slash outside strings, by the byte after it. */
  lemma SlashDrops(s: string, k: nat)
    requires k < |s| && s[k] == '/'
    ensures var rest, t := Minified(s[k + Minify.Slash(s[k..])..]), s[k + 1..];
      if ByteAt(s, k + 1) == '/' then rest == Minified(t[LineRest(t)..])
      else if ByteAt(s, k + 1) == '*' then t != "" && rest == Minified(t[1 + BlockRest(t[1..])..])
      else rest == Minified(t)
  {
    hide Minified;
    hide LineRest;
    hide BlockRest;
    SlashStep(s, k);
    LineSlash(s, k + 1);
    hide Minify.Slash;
    var t := s[k + 1..];
    Drop(s, k + 1, LineRest(t));
    if ByteAt(s, k + 1) == '*' {
      assert t[1..] == s[k + 2..];
      Drop(s, k + 1, 1 + BlockRest(t[1..]));
    }
  }

  lemma Drop(s: string, k: nat, n: nat)
    requires k + n <= |s|
    ensures s[k..][n..] == s[k + n..]
  {
  }

  /** The second slash of a line comment does not end it. */
  lemma LineSlash(s: string, k: nat)
    requires k <= |s|
    ensures ByteAt(s, k) == '/' ==> k < |s| && LineRest(s[k..]) == 1 + LineRest(s[k + 1..])
  {
    if k < |s| {
      LineStep(s, k);
    }
  }

  lemma StringStep(s: string, k: nat)
    requires k < |s| && (ModeAt(s, k).Inside? || ModeAt(s, k).Escaped?)
    ensures Stepped(s, k)
  {
    CopiedStep(s, k);
    if ModeAt(s, k).Escaped? {
      assert s[k..][0] == s[k] && s[k..][1..] == s[k + 1..];
    } else if s[k] == '\\' && ByteAt(s, k + 1) == '\"' {
      var rest := Copied(s[k + 2..]);
      assert s[k + 1..][0] == '\"' && s[k + 1..][1..] == s[k + 2..];
      assert "\\\"" + rest == "\\" + (['\"'] + rest);
    }
    hide Minified;
    hide Copied;
  }

  lemma CommentStep(s: string, k: nat)
    requires k < |s| && ModeAt(s, k) in {Line, BlockStart, Block, BlockEnd}
    ensures Stepped(s, k)
  {
    LineStep(s, k);
    BlockStep(s, k);
    var t, u := s[k..], s[k + 1..];
    assert t[1..] == u && forall n :: 0 <= n <= |u| ==> t[1 + n..] == u[n..];
    if ModeAt(s, k).Block? && s[k] == '*' && ByteAt(s, k + 1) == '/' {
      assert t[2..] == u[1..];
    }
    hide Minified;
    hide LineRest;
    hide BlockRest;
  }

  /** What one position adds, and what is left to read. */
  ghost predicate Stepped(s: string, k: nat)
    requires k < |s|
  {
    var kept := if ClassAt(s, k) in {InString, Other} then [s[k]] else "";
    Rest(ModeAt(s, k), s[k..]) == kept + Rest(Next(ModeAt(s, k), s[k], ByteAt(s, k + 1)), s[k + 1..])
  }

  lemma RestStep(s: string, k: nat)
    requires k < |s|
    ensures Stepped(s, k)
  {
    match ModeAt(s, k) {
      case Outside => OutsideStep(s, k);
      case Inside => StringStep(s, k);
      case Escaped => StringStep(s, k);
      case _ => CommentStep(s, k);
    }
    hide Stepped;
  }

  lemma {:induction false} KeptRest(s: string, k: nat)
    requires k <= |s|
    ensures Kept(s, k) + Rest(ModeAt(s, k), s[k..]) == Minified(s)
  {
    if k == 0 {
      assert s[0..] == s && "" + Minified(s) == Minified(s);
    } else {
      KeptRest(s, k - 1);
      RestStep(s, k - 1);
      assert Stepped(s, k - 1);
      hide Minified;
      hide Rest;
      hide ClassAt;
      hide Next;
      var c := if ClassAt(s, k - 1) in {InString, Other} then [s[k - 1]] else "";
      Associate(Kept(s, k - 1), c, Rest(ModeAt(s, k), s[k..]));
    }
  }

  lemma RestEmpty(m: Mode)
    ensures Rest(m, "") == ""
  {
  }

  /** The minified text is the kept bytes, in order. */
  lemma MinifiedKept(s: string)
    ensures Minified(s) == Kept(s, |s|)
  {
    KeptRest(s, |s|);
    assert s[|s|..] == "";
    RestEmpty(ModeAt(s, |s|));
    hide *;
    assert Kept(s, |s|) + "" == Kept(s, |s|);
  }

  // ---- nothing else is left ----

  lemma {:induction false} KeptLength(s: string, k: nat)
    requires k <= |s|
    ensures |Kept(s, k)| <= k
    ensures |Kept(s, k)| == k ==> forall e :: 0 <= e < k ==> ClassAt(s, e) in {InString, Other}
  {
    hide ClassAt;
    if k == 0 {
    } else {
      KeptLength(s, k - 1);
    }
  }

  /** In minified text every byte is inside a string or is needed outside of one: no comment, no stray
      slash, and none of the four blank characters is left there. */
  lemma NothingToDrop(s: string)
    ensures var r := Minified(s);
      forall k :: 0 <= k < |r| ==>
        ClassAt(r, k) == InString || (ClassAt(r, k) == Other && r[k] !in {' ', '\t', '\r', '\n', '/'})
  {
    var r := Minified(s);
    MinifyPrint.MinifiedTwice(s);
    MinifiedKept(r);
    KeptLength(r, |r|);
    hide Kept;
    hide Minified;
  }
}
