/** What minifying is: a text is taken apart into white space, comments, string literals and other
  * characters, and the white space and the comments are left out. */
module JsonStrip {
  import opened Options
  import opened Texts
  import opened JsonMinify

  datatype Piece = Space(c: char) | Line(body: string) | Block(body: string) | Literal(body: string) | Other(c: char)

  /** How a piece is written. The star that opens a block comment belongs to its body and may be the one
    * that closes it. */
  function One(p: Piece): (t: string)
    ensures t != []
  {
    match p
    case Space(c) => [c]
    case Line(body) => "//" + body
    case Block(body) => "/" + (body + "*/")
    case Literal(body) => "\"" + (body + "\"")
    case Other(c) => [c]
  }

  function Spelled(ps: seq<Piece>): string {
    if ps == [] then [] else One(ps[0]) + Spelled(ps[1..])
  }

  function Kept(ps: seq<Piece>): string {
    if ps == [] then []
    else (if ps[0].Literal? || ps[0].Other? then One(ps[0]) else []) + Kept(ps[1..])
  }

  /** The inside of a string literal: a backslash takes the next character with it. */
  predicate Quoted(body: string) {
    if body == [] then true
    else if body[0] == '\\' then |body| >= 2 && Quoted(body[2..])
    else body[0] != '\"' && Quoted(body[1..])
  }

  /** Up to the first star in front of a slash. */
  predicate Commented(body: string) {
    var t := body + "*/";
    t[0] == '*' && forall k :: 0 <= k < |body| ==> !(t[k] == '*' && t[k + 1] == '/')
  }

  /** Whether a piece may stand in front of the rest: a line comment reaches up to the end of its line, and
    * a slash of its own does not open a comment. */
  predicate Fits(p: Piece, rest: string) {
    match p
    case Space(c) => c in " \t\r\n"
    case Line(body) => '\n' !in body && (rest == [] || rest[0] == '\n')
    case Block(body) => Commented(body)
    case Literal(body) => Quoted(body)
    case Other(c) => c !in " \t\r\n\"" && (c == '/' ==> rest == [] || rest[0] !in "/*")
  }

  predicate Legal(ps: seq<Piece>) {
    ps == [] || (Fits(ps[0], Spelled(ps[1..])) && Legal(ps[1..]))
  }

  // ---------- the parts ----------

  lemma {:induction false} LineEnds(body: string, rest: string)
    requires '\n' !in body && (rest == [] || rest[0] == '\n')
    ensures AfterLine(body + rest) == rest
  {
    if body == [] {
      assert body + rest == rest;
    } else {
      LineEnds(body[1..], rest);
      assert (body + rest)[1..] == body[1..] + rest;
    }
  }

  lemma {:induction false} BlockEnds(body: string, rest: string)
    requires forall k :: 0 <= k < |body| ==> !((body + "*/")[k] == '*' && (body + "*/")[k + 1] == '/')
    ensures AfterBlock((body + "*/") + rest) == Some(rest)
  {
    var s := (body + "*/") + rest;
    if body == [] {
      assert s[0] == '*' && s[1] == '/' && s[2..] == rest;
    } else {
      var b := body[1..];
      forall k | 0 <= k < |b| ensures !((b + "*/")[k] == '*' && (b + "*/")[k + 1] == '/') {
        assert (b + "*/")[k] == (body + "*/")[k + 1] && (b + "*/")[k + 1] == (body + "*/")[k + 2];
      }
      BlockEnds(b, rest);
      assert s[1..] == (b + "*/") + rest;
      assert s[0] == (body + "*/")[0] && s[1] == (body + "*/")[1];
    }
  }

  lemma {:induction false} LiteralEnds(body: string, rest: string)
    requires Quoted(body)
    ensures LiteralEnd((body + "\"") + rest) == Some(|body| + 1)
    decreases |body|
  {
    var s := (body + "\"") + rest;
    if body == [] {
      assert s[0] == '\"';
    } else if body[0] == '\\' {
      LiteralEnds(body[2..], rest);
      assert s[2..] == (body[2..] + "\"") + rest;
    } else {
      LiteralEnds(body[1..], rest);
      assert s[1..] == (body[1..] + "\"") + rest;
    }
  }

  lemma {:induction false} LineTaken(s: string) returns (body: string)
    ensures s == body + AfterLine(s) && '\n' !in body && (AfterLine(s) == [] || AfterLine(s)[0] == '\n')
  {
    if s == [] || s[0] == '\n' {
      body := [];
    } else {
      var b := LineTaken(s[1..]);
      body := [s[0]] + b;
    }
  }

  lemma {:induction false} BlockTaken(s: string) returns (body: string)
    requires AfterBlock(s).Some?
    ensures s == (body + "*/") + AfterBlock(s).value
    ensures forall k :: 0 <= k < |body| ==> !((body + "*/")[k] == '*' && (body + "*/")[k + 1] == '/')
  {
    if |s| >= 2 && s[0] == '*' && s[1] == '/' {
      body := [];
    } else {
      var b := BlockTaken(s[1..]);
      body := [s[0]] + b;
      var t := body + "*/";
      assert s == t + AfterBlock(s).value;
      forall k | 0 <= k < |body| ensures !(t[k] == '*' && t[k + 1] == '/') {
        if k > 0 {
          assert t[k] == (b + "*/")[k - 1] && t[k + 1] == (b + "*/")[k];
        } else {
          assert t[0] == s[0] && t[1] == s[1];
        }
      }
    }
  }

  lemma {:induction false} LiteralTaken(s: string) returns (body: string)
    requires LiteralEnd(s).Some?
    ensures |body| + 1 == LiteralEnd(s).value && s[..|body| + 1] == body + "\"" && Quoted(body)
    decreases |s|
  {
    if s[0] == '\"' {
      body := [];
    } else {
      var n := if s[0] == '\\' then 2 else 1;
      var b := LiteralTaken(s[n..]);
      body := s[..n] + b;
      assert body[n..] == b;
      assert s[..|body| + 1] == s[..n] + s[n..][..|b| + 1];
    }
  }

  // ---------- the text ----------

  lemma StripOne(p: Piece, rest: string)
    requires Fits(p, rest)
    ensures Minify(One(p) + rest) == Prepend(if p.Literal? || p.Other? then One(p) else [], Minify(rest))
  {
    hide *;
    FitsIs(p, rest);
    PrependTwice([], [], Minify(rest));
    match p
    case Space(c) => StripCharacter(c, rest);
    case Line(body) => StripLine(body, rest);
    case Block(body) => StripBlock(body, rest);
    case Literal(body) => StripLiteral(body, rest);
    case Other(c) => StripCharacter(c, rest);
  }

  lemma FitsIs(p: Piece, rest: string)
    requires Fits(p, rest)
    ensures p.Space? ==> p.c in " \t\r\n" && One(p) == [p.c]
    ensures p.Line? ==> '\n' !in p.body && (rest == [] || rest[0] == '\n') && One(p) == "//" + p.body
    ensures p.Block? ==> Commented(p.body) && One(p) == "/" + (p.body + "*/")
    ensures p.Literal? ==> Quoted(p.body) && One(p) == "\"" + (p.body + "\"")
    ensures p.Other? ==> p.c !in " \t\r\n\"" && (p.c == '/' ==> rest == [] || rest[0] !in "/*") && One(p) == [p.c]
  {
    hide Quoted, Commented;
  }

  lemma StripCharacter(c: char, rest: string)
    ensures c in " \t\r\n" ==> Minify([c] + rest) == Minify(rest)
    ensures c !in " \t\r\n\"" && (c == '/' ==> rest == [] || rest[0] !in "/*") ==>
              Minify([c] + rest) == Prepend([c], Minify(rest))
  {
    hide Minify, AfterLine, AfterBlock, LiteralEnd, Quoted, Commented, IsWhite;
    var s := [c] + rest;
    StepAt(s);
    WhiteIs(s[0]);
    assert s[1..] == rest && s[..1] == [c];
    assert |s| >= 2 ==> s[1] == rest[0];
  }

  lemma StripLine(body: string, rest: string)
    requires '\n' !in body && (rest == [] || rest[0] == '\n')
    ensures Minify(("//" + body) + rest) == Minify(rest)
  {
    hide Minify, AfterLine, AfterBlock, LiteralEnd, Quoted, Commented, IsWhite;
    var s := ("//" + body) + rest;
    StepAt(s);
    WhiteIs(s[0]);
    LineEnds("/" + body, rest);
    assert s[1..] == ("/" + body) + rest;
  }

  lemma StripBlock(body: string, rest: string)
    requires Commented(body)
    ensures Minify(("/" + (body + "*/")) + rest) == Minify(rest)
  {
    hide Minify, AfterLine, AfterBlock, LiteralEnd, Quoted, Commented, IsWhite;
    var s := ("/" + (body + "*/")) + rest;
    StepAt(s);
    WhiteIs(s[0]);
    CommentedIs(body);
    BlockEnds(body, rest);
    assert s[1..] == (body + "*/") + rest;
    assert s[1] == (body + "*/")[0];
  }

  lemma StripLiteral(body: string, rest: string)
    requires Quoted(body)
    ensures Minify(("\"" + (body + "\"")) + rest) == Prepend("\"" + (body + "\""), Minify(rest))
  {
    hide Minify, AfterLine, AfterBlock, LiteralEnd, Quoted, Commented, IsWhite;
    var t := "\"" + (body + "\"");
    var s := t + rest;
    StepAt(s);
    WhiteIs(s[0]);
    LiteralEnds(body, rest);
    assert s[1..] == (body + "\"") + rest;
    assert s[..|t|] == t && s[|t|..] == rest;
  }

  lemma CommentedIs(body: string)
    ensures Commented(body) <==> (body + "*/")[0] == '*' && forall k :: 0 <= k < |body| ==> !((body + "*/")[k] == '*' && (body + "*/")[k + 1] == '/')
  {
  }

  lemma StepAt(s: string)
    requires s != []
    ensures Minify(s) ==
      if IsWhite(s[0]) then Minify(s[1..])
      else if s[0] == '/' && |s| >= 2 && s[1] == '/' then Minify(AfterLine(s[1..]))
      else if s[0] == '/' && |s| >= 2 && s[1] == '*' then
        if AfterBlock(s[1..]).Some? then Minify(AfterBlock(s[1..]).value) else None
      else if s[0] == '\"' then
        if LiteralEnd(s[1..]).Some? then Prepend(s[..LiteralEnd(s[1..]).value + 1], Minify(s[LiteralEnd(s[1..]).value + 1..])) else None
      else Prepend(s[..1], Minify(s[1..]))
  {
    hide AfterLine, AfterBlock, LiteralEnd, IsWhite;
  }

  lemma WhiteIs(c: char)
    ensures IsWhite(c) <==> c in " \t\r\n"
  {
  }

  lemma {:induction false} Strips(ps: seq<Piece>)
    requires Legal(ps)
    ensures Minify(Spelled(ps)) == Some(Kept(ps))
  {
    hide Minify, Fits;
    if ps == [] {
      MinifyNone();
    } else {
      Strips(ps[1..]);
      StripOne(ps[0], Spelled(ps[1..]));
    }
  }

  lemma MinifyNone()
    ensures Minify([]) == Some([])
  {
  }

  lemma Piecewise(p: Piece, ps: seq<Piece>)
    requires Legal(ps) && Fits(p, Spelled(ps))
    ensures Legal([p] + ps) && Spelled([p] + ps) == One(p) + Spelled(ps)
    ensures Kept([p] + ps) == (if p.Literal? || p.Other? then One(p) else []) + Kept(ps)
  {
    assert ([p] + ps)[1..] == ps;
  }

  /** The piece a text starts with. */
  lemma FirstPiece(s: string) returns (p: Piece, rest: string)
    requires s != [] && Minify(s).Some?
    ensures Fits(p, rest) && s == One(p) + rest && Minify(rest).Some?
  {
    hide Minify, AfterLine, AfterBlock, LiteralEnd, Quoted, Commented, IsWhite;
    StepAt(s);
    WhiteIs(s[0]);
    if s[0] in " \t\r\n" {
      p, rest := Space(s[0]), s[1..];
    } else if s[0] == '/' && |s| >= 2 && s[1] == '/' {
      var body := LineTaken(s[2..]);
      rest := AfterLine(s[1..]);
      LineSlash(s[1..]);
      p := Line(body);
      assert s == "//" + (body + rest);
    } else if s[0] == '/' && |s| >= 2 && s[1] == '*' {
      var body := BlockTaken(s[1..]);
      rest := AfterBlock(s[1..]).value;
      CommentedIs(body);
      assert (body + "*/")[0] == s[1];
      p := Block(body);
      assert s == "/" + ((body + "*/") + rest);
    } else if s[0] == '\"' {
      var body := LiteralTaken(s[1..]);
      var n := |body| + 2;
      rest := s[n..];
      p := Literal(body);
      assert s[..n] == "\"" + s[1..][..|body| + 1];
      assert s == s[..n] + s[n..];
    } else {
      p, rest := Other(s[0]), s[1..];
    }
  }

  lemma LineSlash(s: string)
    requires s != [] && s[0] == '/'
    ensures AfterLine(s) == AfterLine(s[1..])
  {
  }

  lemma {:induction false} TakenApart(s: string) returns (ps: seq<Piece>)
    requires Minify(s).Some?
    ensures Legal(ps) && Spelled(ps) == s
    decreases |s|
  {
    hide Minify, Fits, One;
    if s == [] {
      ps := [];
    } else {
      var p, rest := FirstPiece(s);
      assert |rest| < |s|;
      var more := TakenApart(rest);
      Piecewise(p, more);
      ps := [p] + more;
    }
  }

  /** Minifying leaves u of s exactly when s can be taken apart so that u is what is kept: string literals
    * as they are and all other characters outside white space and comments. */
  lemma MinifyStrips(s: string, u: string)
    ensures Minify(s) == Some(u) <==> exists ps :: Legal(ps) && Spelled(ps) == s && Kept(ps) == u
  {
    hide *;
    if Minify(s) == Some(u) {
      var ps := TakenApart(s);
      Strips(ps);
    }
    if ps :| Legal(ps) && Spelled(ps) == s && Kept(ps) == u { Strips(ps); }
  }
}
