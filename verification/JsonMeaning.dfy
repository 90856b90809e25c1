/** Minifying keeps the meaning of every text: what parses before parses afterwards, to the same tree. */
module JsonMeaning {
  import opened Options
  import opened JsonText
  import opened JsonParse
  import opened JsonMinify
  import opened JsonBuffers
  import opened JsonReader
  import opened JsonRoundTrip
  import opened Texts

  /** The minified text, from position p on, is what is left of the text from position i on. */
  ghost predicate Follows(s: string, u: string, i: nat, p: nat) {
    i <= |s| && p <= |u| && Minify(s[i..]) == Some(u[p..])
  }

  predicate IsPlain(c: char) {
    !IsWhite(c) && c != '\"' && c != '/'
  }

  lemma Ends(s: string, u: string, i: nat, p: nat)
    requires Follows(s, u, i, p) && i == |s|
    ensures p == |u|
  {
    assert s[i..] == [];
  }

  lemma PlainNext(s: string, u: string, i: nat, p: nat)
    requires Follows(s, u, i, p) && i < |s| && IsPlain(s[i])
    ensures p < |u| && u[p] == s[i] && Follows(s, u, i + 1, p + 1)
  {
    hide Minify;
    var t := s[i..];
    StepPlain(t);
    assert t[1..] == s[i + 1..];
    PrependSome(t[..1], Minify(t[1..]));
    assert u[p..] == t[..1] + Minify(t[1..]).value;
    assert u[p + 1..] == u[p..][1..] == Minify(t[1..]).value;
    assert u[p] == u[p..][0];
  }

  lemma WhiteNext(s: string, u: string, i: nat, p: nat)
    requires Follows(s, u, i, p) && i < |s| && IsWhite(s[i])
    ensures Follows(s, u, i + 1, p)
  {
    hide Minify;
    StepWhite(s[i..]);
    assert s[i..][1..] == s[i + 1..];
  }

  /** A string literal is kept whole. */
  lemma LiteralNext(s: string, u: string, i: nat, p: nat) returns (n: nat)
    requires Follows(s, u, i, p) && i < |s| && s[i] == '\"'
    ensures LiteralEnd(s[i + 1..]) == Some(n) && i + 1 + n <= |s| && p + 1 + n <= |u|
    ensures u[p..p + 1 + n] == s[i..i + 1 + n] && Follows(s, u, i + 1 + n, p + 1 + n)
  {
    hide Minify, LiteralEnd;
    var t := s[i..];
    StepLiteral(t);
    assert t[1..] == s[i + 1..];
    n := LiteralEnd(t[1..]).value;
    MinifyLiteral(t, n);
    PrependSome(t[..n + 1], Minify(t[n + 1..]));
    assert t[..n + 1] == s[i..i + 1 + n] && t[n + 1..] == s[i + 1 + n..];
    var rest := Minify(t[n + 1..]).value;
    assert u[p..] == t[..n + 1] + rest;
    assert u[p..p + 1 + n] == u[p..][..1 + n] == t[..n + 1];
    assert u[p + 1 + n..] == u[p..][1 + n..] == rest;
  }

  /** Blanks may go, but the next character that is none stays. */
  lemma {:induction false} SkipNextTo(s: string, u: string, i: nat, p: nat) returns (q: nat)
    requires NulFree(s) && Follows(s, u, i, p) && At(s, Skip(s, i)) != '/'
    ensures q == Skip(u, p) && p <= q && Follows(s, u, Skip(s, i), q) && At(u, q) == At(s, Skip(s, i))
    ensures At(u, p) == At(u, q) || (At(u, p) != NUL && At(u, p) <= 32 as char)
    decreases |s| - i
  {
    hide Follows, Skip;
    SkipNext(s, i);
    FollowsBounds(s, u, i, p);
    if i == |s| {
      Ends(s, u, i, p);
      SkipNext(u, p);
      q := p;
    } else if s[i] > 32 as char {
      if s[i] == '\"' {
        var n := LiteralNext(s, u, i, p);
        assert u[p] == u[p..p + 1 + n][0] == s[i];
      } else {
        PlainNext(s, u, i, p);
      }
      SkipNext(u, p);
      q := p;
    } else {
      assert s[i] != NUL;
      if IsWhite(s[i]) {
        WhiteNext(s, u, i, p);
        q := SkipNextTo(s, u, i + 1, p);
      } else {
        PlainNext(s, u, i, p);
        q := SkipNextTo(s, u, i + 1, p + 1);
        SkipNext(u, p);
      }
    }
  }

  lemma FollowsBounds(s: string, u: string, i: nat, p: nat)
    requires Follows(s, u, i, p)
    ensures i <= |s| && p <= |u|
  {
  }

  /** A stretch of plain characters is kept whole. */
  lemma {:induction false} PlainStretch(s: string, u: string, i: nat, p: nat, e: nat)
    requires Follows(s, u, i, p) && i <= e <= |s| && forall k :: i <= k < e ==> IsPlain(s[k])
    ensures p + (e - i) <= |u| && Follows(s, u, e, p + (e - i)) && u[p..p + (e - i)] == s[i..e]
    decreases e - i
  {
    hide IsPlain;
    if i == e {
      assert u[p..p] == s[i..i];
    } else {
      PlainNext(s, u, i, p);
      PlainStretch(s, u, i + 1, p + 1, e);
      assert u[p..p + (e - i)] == [u[p]] + u[p + 1..p + (e - i)];
      assert s[i..e] == [s[i]] + s[i + 1..e];
    }
  }

  // ---------- numbers ----------

  /** No number goes on with this character. */
  predicate Stops(c: char) {
    !IsDigit(c) && c != '.' && c != 'e' && c != 'E' && c != '+' && c != '-'
  }

  /** From i and from p on the texts agree for n characters, and then neither goes on with a number. */
  ghost predicate Same(s: string, u: string, i: nat, p: nat, n: nat) {
    && (forall k :: i <= k < i + n ==> At(s, k) == At(u, p + (k - i)))
    && Stops(At(s, i + n)) && Stops(At(u, p + n))
  }

  lemma SameAt(s: string, u: string, i: nat, p: nat, n: nat, d: nat)
    requires Same(s, u, i, p, n) && d <= n
    ensures At(u, p + d) == At(s, i + d) || (Stops(At(s, i + d)) && Stops(At(u, p + d)))
    ensures !Stops(At(s, i + d)) ==> d < n && At(u, p + d) == At(s, i + d)
    ensures Same(s, u, i + d, p + d, n - d)
  {
    hide At;
  }

  lemma StopsNot(c: char)
    ensures Stops(c) ==> !IsDigit(c) && !('0' <= c <= '9') && c != '.' && c != 'e' && c != 'E' && c != '+' && c != '-'
    ensures IsDigit(c) <==> '0' <= c <= '9'
  {
  }

  lemma {:induction false} RunSame(s: string, u: string, i: nat, p: nat, n: nat, x: real)
    requires Same(s, u, i, p, n)
    ensures var (v, e) := Run(s, i, x); e <= i + n && Run(u, p, x) == (v, p + (e - i))
    decreases n
  {
    hide Same, Stops, At;
    RunNext(s, i, x);
    RunNext(u, p, x);
    SameAt(s, u, i, p, n, 0);
    StopsNot(At(s, i));
    StopsNot(At(u, p));
    if IsDigit(At(s, i)) {
      SameAt(s, u, i, p, n, 1);
      RunSame(s, u, i + 1, p + 1, n - 1, x * 10.0 + (At(s, i) as int - '0' as int) as real);
    }
  }

  lemma {:induction false} IntRunSame(s: string, u: string, i: nat, p: nat, n: nat, x: nat)
    requires Same(s, u, i, p, n)
    ensures var (v, e) := IntRun(s, i, x); e <= i + n && IntRun(u, p, x) == (v, p + (e - i))
    decreases n
  {
    hide Same, Stops, At;
    IntRunNext(s, i, x);
    IntRunNext(u, p, x);
    SameAt(s, u, i, p, n, 0);
    StopsNot(At(s, i));
    StopsNot(At(u, p));
    if IsDigit(At(s, i)) {
      SameAt(s, u, i, p, n, 1);
      IntRunSame(s, u, i + 1, p + 1, n - 1, x * 10 + (At(s, i) as int - '0' as int));
    }
  }

  lemma IntegerSame(s: string, u: string, i: nat, p: nat, n: nat)
    requires Same(s, u, i, p, n)
    ensures var (v, e) := IntegerPart(s, i); e <= i + n && IntegerPart(u, p) == (v, p + (e - i))
  {
    hide Same, Stops, At, Run;
    SameAt(s, u, i, p, n, 0);
    StopsNot(At(s, i));
    StopsNot(At(u, p));
    if At(s, i) == '0' {
      SameAt(s, u, i, p, n, 1);
      SameAt(s, u, i + 1, p + 1, n - 1, 0);
      StopsNot(At(s, i + 1));
      StopsNot(At(u, p + 1));
      RunSame(s, u, i + 1, p + 1, n - 1, 0.0);
    } else {
      RunSame(s, u, i, p, n, 0.0);
    }
  }

  lemma FractionSame(s: string, u: string, i: nat, p: nat, n: nat, x: real)
    requires Same(s, u, i, p, n)
    ensures var (v, e) := Fraction(s, i, x); e <= i + n && Fraction(u, p, x) == (v, p + (e - i))
  {
    hide Same, Stops, At, Run;
    SameAt(s, u, i, p, n, 0);
    StopsNot(At(s, i));
    StopsNot(At(u, p));
    if At(s, i) == '.' {
      SameAt(s, u, i, p, n, 1);
      SameAt(s, u, i + 1, p + 1, n - 1, 0);
      StopsNot(At(s, i + 1));
      StopsNot(At(u, p + 1));
      RunSame(s, u, i + 1, p + 1, n - 1, x);
    }
  }

  lemma ExponentSame(s: string, u: string, i: nat, p: nat, n: nat)
    requires Same(s, u, i, p, n)
    ensures var (v, e) := Exponent(s, i); e <= i + n && Exponent(u, p) == (v, p + (e - i))
  {
    hide Same, Stops, At, IntRun;
    SameAt(s, u, i, p, n, 0);
    StopsNot(At(s, i));
    StopsNot(At(u, p));
    if At(s, i) == 'e' || At(s, i) == 'E' {
      SameAt(s, u, i, p, n, 1);
      SameAt(s, u, i + 1, p + 1, n - 1, 0);
      StopsNot(At(s, i + 1));
      StopsNot(At(u, p + 1));
      if At(s, i + 1) == '+' || At(s, i + 1) == '-' {
        SameAt(s, u, i + 1, p + 1, n - 1, 1);
        IntRunSame(s, u, i + 2, p + 2, n - 2, 0);
      } else {
        IntRunSame(s, u, i + 1, p + 1, n - 1, 0);
      }
    }
  }

  /** A number is read from the same characters with the same value. */
  lemma NumberSame(s: string, u: string, i: nat, p: nat, n: nat)
    requires Same(s, u, i, p, n) && NumberAt(s, i).1 == i + n
    ensures NumberAt(u, p) == (NumberAt(s, i).0, p + n)
  {
    hide *;
    SameAt(s, u, i, p, n, 0);
    StopsNot(At(s, i));
    StopsNot(At(u, p));
    var d: nat := if At(s, i) == '-' then 1 else 0;
    SameAt(s, u, i, p, n, d);
    var (v1, e1) := IntegerPart(s, i + d);
    IntegerSame(s, u, i + d, p + d, n - d);
    var d1: nat := e1 - i;
    SameAt(s, u, i, p, n, d1);
    var (v2, e2) := Fraction(s, e1, v1);
    FractionSame(s, u, e1, p + d1, n - d1, v1);
    var d2: nat := e2 - i;
    SameAt(s, u, i, p, n, d2);
    var (x, e3) := Exponent(s, e2);
    ExponentSame(s, u, e2, p + d2, n - d2);
    var scale: int := if e2 > e1 then -(e2 - (e1 + 1)) else 0;
    NumberIs(s, i, i + d, v1, e1, v2, e2, scale, x, e3);
    NumberIs(u, p, p + d, v1, p + d1, v2, p + d2, scale, x, p + (e3 - i));
    Pair(NumberAt(u, p), NumberAt(s, i).0, p + n);
  }

  lemma Pair(r: (real, nat), a: real, b: nat)
    requires r.0 == a && r.1 == b
    ensures r == (a, b)
  {
  }

  lemma {:induction false} RunChars(s: string, i: nat, x: real)
    ensures forall k :: i <= k < Run(s, i, x).1 ==> !Stops(At(s, k))
    decreases |s| - i
  {
    hide At;
    RunNext(s, i, x);
    if IsDigit(At(s, i)) { RunChars(s, i + 1, x * 10.0 + (At(s, i) as int - '0' as int) as real); }
  }

  lemma {:induction false} IntRunChars(s: string, i: nat, x: nat)
    ensures forall k :: i <= k < IntRun(s, i, x).1 ==> !Stops(At(s, k))
    decreases |s| - i
  {
    hide At;
    IntRunNext(s, i, x);
    if IsDigit(At(s, i)) { IntRunChars(s, i + 1, x * 10 + (At(s, i) as int - '0' as int)); }
  }

  lemma PartChars(s: string, i: nat, x: real)
    ensures forall k :: i <= k < IntegerPart(s, i).1 ==> !Stops(At(s, k))
    ensures forall k :: i <= k < Fraction(s, i, x).1 ==> !Stops(At(s, k))
    ensures forall k :: i <= k < Exponent(s, i).1 ==> !Stops(At(s, k))
  {
    hide At, Run, IntRun;
    RunChars(s, i, 0.0);
    RunChars(s, i + 1, 0.0);
    RunChars(s, i + 1, x);
    IntRunChars(s, i + 1, 0);
    IntRunChars(s, i + 2, 0);
  }

  /** A number has plain characters only, and the character behind it stops it. */
  lemma NumberChars(s: string, i: nat)
    ensures i <= NumberAt(s, i).1 <= if i < |s| then |s| else i
    ensures forall k :: i <= k < NumberAt(s, i).1 ==> k < |s| && IsPlain(s[k]) && !Stops(At(s, k))
  {
    hide IntegerPart, Fraction, Exponent, Stops, IsPlain;
    var start := if At(s, i) == '-' then i + 1 else i;
    var (n, j) := IntegerPart(s, start);
    PartChars(s, start, 0.0);
    var (m, k) := Fraction(s, j, n);
    PartChars(s, j, n);
    PartChars(s, k, 0.0);
    MinusSign();
    var e := NumberAt(s, i).1;
    forall k | i <= k < e ensures k < |s| && IsPlain(s[k]) && !Stops(At(s, k)) {
      NotStopping(s, k);
    }
    if i < e { NotStopping(s, e - 1); }
  }

  lemma MinusSign()
    ensures !Stops('-')
  {
  }

  lemma NotStopping(s: string, k: nat)
    requires !Stops(At(s, k))
    ensures k < |s| && IsPlain(s[k])
  {
  }

  // ---------- strings ----------

  /** The texts agree on n characters. */
  ghost predicate Equal(s: string, u: string, i: nat, p: nat, n: nat) {
    forall k :: i <= k < i + n ==> At(s, k) == At(u, p + (k - i))
  }

  lemma EqualFrom(s: string, u: string, i: nat, p: nat, n: nat, d: nat)
    requires Equal(s, u, i, p, n) && d <= n
    ensures Equal(s, u, i + d, p + d, n - d)
    ensures d < n ==> At(u, p + d) == At(s, i + d)
  {
    hide At;
  }

  lemma LiteralAt(s: string, k: nat)
    requires k <= |s|
    ensures k < |s| && s[k] == '\"' ==> LiteralEnd(s[k..]) == Some(1)
    ensures k < |s| && s[k] != '\"' && s[k] != '\\' && LiteralEnd(s[k..]).Some? ==>
              LiteralEnd(s[k + 1..]).Some? && LiteralEnd(s[k..]).value == LiteralEnd(s[k + 1..]).value + 1
    ensures k < |s| && s[k] == '\\' && LiteralEnd(s[k..]).Some? ==>
              k + 2 <= |s| && LiteralEnd(s[k + 2..]).Some? && LiteralEnd(s[k..]).value == LiteralEnd(s[k + 2..]).value + 2
    ensures k == |s| ==> LiteralEnd(s[k..]).None?
  {
    if k < |s| {
      assert s[k..][1..] == s[k + 1..];
      if k + 2 <= |s| { assert s[k..][2..] == s[k + 2..]; }
    }
  }

  lemma {:induction false} HexEqual(s: string, u: string, i: nat, p: nat, n: nat)
    requires Equal(s, u, i, p, n) && n >= 4
    ensures HexAt(s, i) == HexAt(u, p) && Hex4(s, i) == Hex4(u, p)
  {
    hide At, HexValue, HexNumber;
    EqualFrom(s, u, i, p, n, 0);
    EqualFrom(s, u, i, p, n, 1);
    EqualFrom(s, u, i, p, n, 2);
    EqualFrom(s, u, i, p, n, 3);
  }

  /** Four digits are passed over one by one. */
  lemma LiteralHex(s: string, k: nat)
    requires k <= |s| && HexAt(s, k) && LiteralEnd(s[k..]).Some?
    ensures k + 4 <= |s| && LiteralEnd(s[k + 4..]).Some? && LiteralEnd(s[k..]).value == LiteralEnd(s[k + 4..]).value + 4
  {
    hide LiteralEnd, HexValue;
    HexIsPlain(At(s, k));
    HexIsPlain(At(s, k + 1));
    HexIsPlain(At(s, k + 2));
    HexIsPlain(At(s, k + 3));
    LiteralAt(s, k);
    LiteralAt(s, k + 1);
    LiteralAt(s, k + 2);
    LiteralAt(s, k + 3);
  }

  /** What a \u escape yields is settled by the characters up to the end of its literal. */
  lemma UnicodeEqual(s: string, u: string, i: nat, p: nat, n: nat)
    requires Equal(s, u, i, p, n) && n >= 6
    requires At(s, i + 5) == '\\' && At(s, i + 6) == 'u' ==> n >= 11
    requires At(s, i + 5) == '\\' ==> n >= 7
    ensures var (c, j) := UnicodeAt(s, i); UnicodeAt(u, p) == (c, p + (j - i))
  {
    hide At, Hex4, Utf8;
    EqualFrom(s, u, i, p, n, 1);
    EqualFrom(s, u, i, p, n, 5);
    EqualFrom(s, u, i, p, n, 6);
    HexEqual(s, u, i + 1, p + 1, n - 1);
    if n >= 11 {
      EqualFrom(s, u, i, p, n, 7);
      HexEqual(s, u, i + 7, p + 7, n - 7);
    }
  }

  lemma WellEscapedAt(s: string, k: nat)
    requires WellEscaped(s, k)
    ensures At(s, k) != '\"' && At(s, k) != NUL && At(s, k) != '\\' ==> WellEscaped(s, k + 1)
    ensures At(s, k) == '\\' ==> At(s, k + 1) != NUL
    ensures At(s, k) == '\\' && At(s, k + 1) != 'u' ==> WellEscaped(s, k + 2)
    ensures At(s, k) == '\\' && At(s, k + 1) == 'u' ==> HexAt(s, k + 2) && WellEscaped(s, k + 6)
  {
    hide HexAt;
  }

  lemma UnicodeInside(s: string, u: string, k: nat, p: nat, n: nat) returns (j: nat)
    requires k < |s| && LiteralEnd(s[k..]) == Some(n) && WellEscaped(s, k) && Equal(s, u, k, p, n)
    requires s[k] == '\\' && At(s, k + 1) == 'u'
    ensures k < j <= k + n && j <= |s| && j == UnicodeAt(s, k + 1).1 && WellEscaped(s, j)
    ensures LiteralEnd(s[j..]) == Some(n - (j - k)) && n > 1 && At(u, p + 1) == 'u'
    ensures UnicodeAt(u, p + 1) == (UnicodeAt(s, k + 1).0, p + (j - k))
  {
    hide LiteralEnd, WellEscaped, Equal, HexAt, UnicodeAt;
    LiteralAt(s, k);
    WellEscapedAt(s, k);
    LiteralHex(s, k + 2);
    UnicodeFits(s, k + 1);
    j := UnicodeAt(s, k + 1).1;
    LiteralAt(s, k + 6);
    WellEscapedAt(s, k + 6);
    if At(s, k + 6) == '\\' && At(s, k + 7) == 'u' {
      LiteralAt(s, k + 6);
      LiteralHex(s, k + 8);
    }
    EqualFrom(s, u, k, p, n, 1);
    UnicodeEqual(s, u, k + 1, p + 1, n - 1);
  }

  lemma EscapeEqual(s: string, u: string, i: nat, p: nat)
    requires At(s, i) == At(u, p) && At(s, i) != 'u'
    ensures EscapeAt(u, p).0 == EscapeAt(s, i).0
  {
    hide UnicodeAt;
  }

  /** The parser and the minifier agree where a literal ends, and its value is settled by its own
    * characters. */
  lemma {:induction false} BodyEqual(s: string, u: string, k: nat, p: nat, n: nat)
    requires NulFree(s) && k <= |s| && LiteralEnd(s[k..]) == Some(n) && WellEscaped(s, k) && Equal(s, u, k, p, n)
    ensures n > 0 && Body(s, k).1 == k + n - 1 && At(s, k + n - 1) == '\"' && Body(u, p) == (Body(s, k).0, p + n - 1)
    decreases n
  {
    hide Body, LiteralEnd, WellEscaped, Equal, HexAt, EscapeAt, UnicodeAt;
    LiteralAt(s, k);
    assert k < |s| && At(s, k) == s[k] && s[k] != NUL;
    EqualFrom(s, u, k, p, n, 0);
    UnitsNext(s, k);
    UnitsNext(u, p);
    WellEscapedAt(s, k);
    if s[k] == '\"' {
    } else if s[k] != '\\' {
      EqualFrom(s, u, k, p, n, 1);
      BodyEqual(s, u, k + 1, p + 1, n - 1);
    } else {
      BodyEscape(s, k);
      BodyEscape(u, p);
      LiteralAt(s, k + 2);
      EqualFrom(s, u, k, p, n, 1);
      if At(s, k + 1) != 'u' {
        EqualFrom(s, u, k, p, n, 2);
        EscapeEqual(s, u, k + 1, p + 1);
        BodyEqual(s, u, k + 2, p + 2, n - 2);
      } else {
        var j := UnicodeInside(s, u, k, p, n);
        EqualFrom(s, u, k, p, n, j - k);
        BodyEqual(s, u, j, p + (j - k), n - (j - k));
      }
    }
  }

  // ---------- values ----------

  /** What may stand behind a value and its blanks. */
  predicate Closes(c: char) {
    c == ',' || c == ']' || c == '}' || c == NUL
  }

  lemma ClosesIs(c: char)
    ensures Closes(c) <==> c == ',' || c == ']' || c == '}' || c == NUL
    ensures Closes(c) ==> Stops(c) && c != '/'
    ensures c <= 32 as char ==> Stops(c)
  {
  }

  lemma PlainIs(c: char)
    ensures IsPlain(c) <==> c != ' ' && c != '\t' && c != '\r' && c != '\n' && c != '\"' && c != '/'
  {
  }

  lemma SliceEqual(s: string, u: string, i: nat, p: nat, n: nat)
    requires i + n <= |s| && p + n <= |u| && u[p..p + n] == s[i..i + n]
    ensures Equal(s, u, i, p, n)
  {
    forall k | i <= k < i + n ensures At(s, k) == At(u, p + (k - i)) {
      assert s[k] == s[i..i + n][k - i] == u[p..p + n][k - i];
    }
  }

  lemma SameIf(s: string, u: string, i: nat, p: nat, n: nat)
    requires Equal(s, u, i, p, n) && Stops(At(s, i + n)) && Stops(At(u, p + n))
    ensures Same(s, u, i, p, n)
  {
  }

  /** A value starts with a character that minifying never takes for a blank or a comment. */
  lemma ValueFirst(s: string, i: nat)
    requires ValueAt(s, i).Some?
    ensures i < |s| && At(s, i) == s[i] && s[i] != '/'
  {
    hide ItemsAt, MembersAt, NumberAt, Body, Skip;
    NotLiteral(s, i);
  }

  lemma NumberKept(s: string, u: string, i: nat, p: nat) returns (q: nat)
    requires NulFree(s) && Follows(s, u, i, p) && (At(s, i) == '-' || IsDigit(At(s, i))) && Closes(At(s, Skip(s, NumberAt(s, i).1)))
    ensures Follows(s, u, NumberAt(s, i).1, q) && NumberAt(u, p) == (NumberAt(s, i).0, q) && At(u, p) == At(s, i)
  {
    hide *;
    var e := NumberAt(s, i).1;
    NumberChars(s, i);
    DigitInside(s, i);
    PlainStretch(s, u, i, p, e);
    q := p + (e - i);
    SliceEqual(s, u, i, p, e - i);
    ClosesIs(At(s, Skip(s, e)));
    BlankOr(s, e);
    ClosesIs(At(s, e));
    var r := SkipNextTo(s, u, e, q);
    ClosesIs(At(u, q));
    SameIf(s, u, i, p, e - i);
    NumberSame(s, u, i, p, e - i);
    NumberMoves(s, i);
    EqualFrom(s, u, i, p, e - i, 0);
  }

  lemma NumberMoves(s: string, i: nat)
    requires At(s, i) == '-' || IsDigit(At(s, i))
    ensures i < NumberAt(s, i).1
  {
    hide NumberAt;
  }

  lemma DigitInside(s: string, i: nat)
    requires At(s, i) == '-' || IsDigit(At(s, i))
    ensures i < |s|
  {
  }

  lemma BlankOr(s: string, i: nat)
    ensures At(s, i) == At(s, Skip(s, i)) || At(s, i) <= 32 as char
  {
  }

  lemma StringKept(s: string, u: string, i: nat, p: nat) returns (q: nat)
    requires NulFree(s) && Escaped(s) && Follows(s, u, i, p) && At(s, i) == '\"'
    ensures StringAt(s, i).Some? && Follows(s, u, StringAt(s, i).value.1, q)
    ensures At(u, p) == '\"' && StringAt(u, p) == Some((StringAt(s, i).value.0, q))
  {
    hide Follows, LiteralEnd, WellEscaped, Body, Equal, Escaped, NulFree;
    FollowsBounds(s, u, i, p);
    assert i < |s|;
    EscapedAt(s, i);
    var n := LiteralNext(s, u, i, p);
    q := p + 1 + n;
    SliceEqual(s, u, i, p, 1 + n);
    EqualFrom(s, u, i, p, 1 + n, 0);
    EqualFrom(s, u, i, p, 1 + n, 1);
    BodyEqual(s, u, i + 1, p + 1, n);
    EqualFrom(s, u, i, p, 1 + n, n);
    StringIs(s, i);
    StringIs(u, p);
  }

  lemma LiteralKept(s: string, u: string, i: nat, p: nat, t: string) returns (q: nat)
    requires Follows(s, u, i, p) && Here(s, i, t) && forall k :: 0 <= k < |t| ==> IsPlain(t[k])
    ensures q == p + |t| && Follows(s, u, i + |t|, q) && Here(u, p, t)
  {
    hide Follows, IsPlain;
    forall k | i <= k < i + |t| ensures IsPlain(s[k]) {
      assert s[k] == s[i..i + |t|][k - i] == t[k - i];
    }
    PlainStretch(s, u, i, p, i + |t|);
    q := p + |t|;
  }

  lemma ScalarKept(s: string, u: string, i: nat, p: nat) returns (q: nat)
    requires NulFree(s) && Escaped(s) && Follows(s, u, i, p) && ValueAt(s, i).Some?
    requires At(s, i) != '[' && At(s, i) != '{' && Closes(At(s, Skip(s, ValueAt(s, i).value.1)))
    ensures Follows(s, u, ValueAt(s, i).value.1, q) && ValueAt(u, p) == Some((ValueAt(s, i).value.0, q))
  {
    hide *;
    ScalarAt(s, i);
    NotLiteral(s, i);
    if Here(s, i, "null") {
      PlainWords();
      q := LiteralKept(s, u, i, p, "null");
    } else if Here(s, i, "false") {
      PlainWords();
      q := LiteralKept(s, u, i, p, "false");
    } else if Here(s, i, "true") {
      PlainWords();
      q := LiteralKept(s, u, i, p, "true");
    } else if At(s, i) == '\"' {
      q := StringKept(s, u, i, p);
    } else {
      q := NumberKept(s, u, i, p);
    }
    NotLiteral(u, p);
    ScalarAt(u, p);
  }

  lemma PlainWords()
    ensures forall k :: 0 <= k < 4 ==> IsPlain("null"[k]) && IsPlain("true"[k])
    ensures forall k :: 0 <= k < 5 ==> IsPlain("false"[k])
  {
  }

  /** A character kept in front of what is kept. */
  lemma MarkKept(s: string, u: string, i: nat, p: nat)
    requires Follows(s, u, i, p) && (At(s, i) == '[' || At(s, i) == ']' || At(s, i) == '{' || At(s, i) == '}' || At(s, i) == ',' || At(s, i) == ':')
    ensures At(u, p) == At(s, i) && Follows(s, u, i + 1, p + 1) && i < |s|
  {
    hide Follows, IsPlain;
    FollowsBounds(s, u, i, p);
    PlainIs(At(s, i));
    PlainNext(s, u, i, p);
  }

  // ---------- lists ----------

  lemma ItemsUnfold(s: string, i: nat)
    ensures var v := ValueAt(s, Skip(s, i));
      && (v.None? ==> ItemsAt(s, i).None?)
      && (v.Some? ==>
            var j := Skip(s, v.value.1);
            && (At(s, j) == ',' && ItemsAt(s, j + 1).None? ==> ItemsAt(s, i).None?)
            && (At(s, j) == ',' && ItemsAt(s, j + 1).Some? ==>
                  ItemsAt(s, i) == Some(([v.value.0] + ItemsAt(s, j + 1).value.0, ItemsAt(s, j + 1).value.1)))
            && (At(s, j) == ']' ==> ItemsAt(s, i) == Some(([v.value.0], j + 1)))
            && (At(s, j) != ',' && At(s, j) != ']' ==> ItemsAt(s, i).None?))
  {
    hide ValueAt, Skip, At;
  }

  lemma MembersUnfold(s: string, i: nat)
    ensures var v := MemberAt(s, i);
      && (v.None? ==> MembersAt(s, i).None?)
      && (v.Some? ==>
            var j := Skip(s, v.value.1);
            && (At(s, j) == ',' && MembersAt(s, j + 1).None? ==> MembersAt(s, i).None?)
            && (At(s, j) == ',' && MembersAt(s, j + 1).Some? ==>
                  MembersAt(s, i) == Some(([v.value.0] + MembersAt(s, j + 1).value.0, MembersAt(s, j + 1).value.1)))
            && (At(s, j) == '}' ==> MembersAt(s, i) == Some(([v.value.0], j + 1)))
            && (At(s, j) != ',' && At(s, j) != '}' ==> MembersAt(s, i).None?))
  {
    hide ValueAt, StringAt, Skip, At;
  }

  /** A value is kept: the minified text holds the same value at the position that follows. */
  lemma {:induction false} ValueKept(s: string, u: string, i: nat, p: nat) returns (q: nat)
    requires NulFree(s) && Escaped(s) && Follows(s, u, i, p) && ValueAt(s, i).Some? && Closes(At(s, Skip(s, ValueAt(s, i).value.1)))
    ensures Follows(s, u, ValueAt(s, i).value.1, q) && ValueAt(u, p) == Some((ValueAt(s, i).value.0, q))
    decreases |s| - i, 1
  {
    hide *;
    ValueFirst(s, i);
    if At(s, i) == '[' {
      q := ArrayKept(s, u, i, p);
    } else if At(s, i) == '{' {
      q := ObjectKept(s, u, i, p);
    } else {
      q := ScalarKept(s, u, i, p);
    }
  }

  lemma {:induction false} ArrayKept(s: string, u: string, i: nat, p: nat) returns (q: nat)
    requires NulFree(s) && Escaped(s) && Follows(s, u, i, p) && ValueAt(s, i).Some? && At(s, i) == '[' && i < |s|
    ensures Follows(s, u, ValueAt(s, i).value.1, q) && ValueAt(u, p) == Some((ValueAt(s, i).value.0, q))
    decreases |s| - i, 0
  {
    hide *;
    ArrayAt(s, i);
    MarkKept(s, u, i, p);
    ArrayAt(u, p);
    Opening(s, i);
    var j := Skip(s, i + 1);
    SkipTwice(s, i + 1);
    if At(s, j) != ']' {
      ItemsUnfold(s, j);
      ValueFirst(s, j);
    }
    var r := SkipNextTo(s, u, i + 1, p + 1);
    if At(s, j) == ']' {
      MarkKept(s, u, j, r);
      q := r + 1;
    } else {
      q := ItemsKept(s, u, j, r);
    }
  }

  lemma {:induction false} ItemsKept(s: string, u: string, i: nat, p: nat) returns (q: nat)
    requires NulFree(s) && Escaped(s) && Follows(s, u, i, p) && ItemsAt(s, i).Some?
    ensures Follows(s, u, ItemsAt(s, i).value.1, q) && ItemsAt(u, p) == Some((ItemsAt(s, i).value.0, q))
    decreases |s| - i, 2
  {
    hide *;
    ItemsUnfold(s, i);
    var k := Skip(s, i);
    SkipAhead(s, i);
    ValueFirst(s, k);
    var r := SkipNextTo(s, u, i, p);
    var f := ValueAt(s, k).value.1;
    var j := Skip(s, f);
    ClosesIs(At(s, j));
    var g := ValueKept(s, u, k, r);
    var h := SkipNextTo(s, u, f, g);
    ItemsUnfold(u, p);
    MarkKept(s, u, j, h);
    ValueMoves(s, k);
    SkipAhead(s, f);
    if At(s, j) == ',' {
      q := ItemsKept(s, u, j + 1, h + 1);
    } else {
      q := h + 1;
    }
  }

  lemma ValueMoves(s: string, i: nat)
    requires ValueAt(s, i).Some?
    ensures i < ValueAt(s, i).value.1
  {
    hide ValueAt;
  }

  lemma {:induction false} ObjectKept(s: string, u: string, i: nat, p: nat) returns (q: nat)
    requires NulFree(s) && Escaped(s) && Follows(s, u, i, p) && ValueAt(s, i).Some? && At(s, i) == '{' && i < |s|
    ensures Follows(s, u, ValueAt(s, i).value.1, q) && ValueAt(u, p) == Some((ValueAt(s, i).value.0, q))
    decreases |s| - i, 0
  {
    hide *;
    ObjectAt(s, i);
    MarkKept(s, u, i, p);
    ObjectAt(u, p);
    Opening(s, i);
    var j := Skip(s, i + 1);
    SkipTwice(s, i + 1);
    if At(s, j) != '}' {
      MembersUnfold(s, j);
      MemberParts(s, j);
    }
    var r := SkipNextTo(s, u, i + 1, p + 1);
    if At(s, j) == '}' {
      MarkKept(s, u, j, r);
      q := r + 1;
    } else {
      q := MembersKept(s, u, j, r);
    }
  }

  /** The pieces of a member. */
  lemma MemberParts(s: string, i: nat)
    requires MemberAt(s, i).Some?
    ensures At(s, Skip(s, i)) == '\"' && StringAt(s, Skip(s, i)).Some?
    ensures var e := StringAt(s, Skip(s, i)).value.1;
      && i < e && At(s, Skip(s, e)) == ':' && ValueAt(s, Skip(s, Skip(s, e) + 1)).Some? && i < Skip(s, Skip(s, e) + 1)
      && MemberAt(s, i).value.1 == ValueAt(s, Skip(s, Skip(s, e) + 1)).value.1
      && i < MemberAt(s, i).value.1
  {
    hide ValueAt, Body;
  }

  lemma {:induction false} MembersKept(s: string, u: string, i: nat, p: nat) returns (q: nat)
    requires NulFree(s) && Escaped(s) && Follows(s, u, i, p) && MembersAt(s, i).Some?
    ensures Follows(s, u, MembersAt(s, i).value.1, q) && MembersAt(u, p) == Some((MembersAt(s, i).value.0, q))
    decreases |s| - i, 2
  {
    hide *;
    MembersUnfold(s, i);
    MemberParts(s, i);
    var k := Skip(s, i);
    var r := SkipNextTo(s, u, i, p);
    var e := StringAt(s, k).value.1;
    var g := StringKept(s, u, k, r);
    var h := SkipNextTo(s, u, e, g);
    MarkKept(s, u, Skip(s, e), h);
    var m := Skip(s, Skip(s, e) + 1);
    ValueFirst(s, m);
    var n := SkipNextTo(s, u, Skip(s, e) + 1, h + 1);
    var f := ValueAt(s, m).value.1;
    var j := Skip(s, f);
    ClosesIs(At(s, j));
    var v := ValueKept(s, u, m, n);
    MemberIs(u, p, StringAt(u, r), h, ValueAt(u, n));
    MemberIs(s, i, StringAt(s, k), Skip(s, e), ValueAt(s, m));
    var w := SkipNextTo(s, u, f, v);
    MembersUnfold(u, p);
    MarkKept(s, u, j, w);
    SkipAhead(s, f);
    if At(s, j) == ',' {
      q := MembersKept(s, u, j + 1, w + 1);
    } else {
      q := w + 1;
    }
  }

  // ---------- when minifying succeeds ----------

  /** What is left from position i on can be minified. */
  ghost predicate Minifies(s: string, i: nat) {
    i <= |s| && Minify(s[i..]).Some?
  }

  lemma MinifiesEnd(s: string)
    ensures Minifies(s, |s|)
  {
    assert s[|s|..] == [];
  }

  lemma PlainBack(s: string, i: nat)
    requires i < |s| && Minifies(s, i + 1) && (IsPlain(s[i]) || IsWhite(s[i]))
    ensures Minifies(s, i)
  {
    assert s[i..][1..] == s[i + 1..];
  }

  lemma LiteralBack(s: string, i: nat, n: nat)
    requires i < |s| && s[i] == '\"' && LiteralEnd(s[i + 1..]) == Some(n) && Minifies(s, i + 1 + n)
    ensures Minifies(s, i)
  {
    hide LiteralEnd, Minify;
    var t := s[i..];
    assert t[1..] == s[i + 1..];
    MinifyLiteral(t, n);
    assert t[n + 1..] == s[i + 1 + n..];
  }

  lemma {:induction false} StretchBack(s: string, i: nat, e: nat)
    requires i <= e && Minifies(s, e) && forall k :: i <= k < e ==> k < |s| && IsPlain(s[k])
    ensures Minifies(s, i)
    decreases e - i
  {
    hide IsPlain, Minifies;
    MinifiesBounds(s, e);
    if i < e {
      StretchBack(s, i + 1, e);
      PlainBack(s, i);
    }
  }

  lemma MinifiesBounds(s: string, i: nat)
    requires Minifies(s, i)
    ensures i <= |s|
  {
  }

  lemma {:induction false} SkipBack(s: string, i: nat)
    requires NulFree(s) && Minifies(s, Skip(s, i))
    ensures Minifies(s, i)
    decreases |s| - i
  {
    hide Minifies;
    if i < |s| && s[i] <= 32 as char {
      assert s[i] != NUL;
      SkipBack(s, i + 1);
      PlainBack(s, i);
    }
  }

  lemma MarkBack(s: string, i: nat)
    requires Minifies(s, i + 1) && (At(s, i) == '[' || At(s, i) == ']' || At(s, i) == '{' || At(s, i) == '}' || At(s, i) == ',' || At(s, i) == ':')
    ensures Minifies(s, i)
  {
    hide Minifies;
    AtInside(s, i);
    PlainBack(s, i);
  }

  lemma AtInside(s: string, i: nat)
    ensures At(s, i) != NUL ==> i < |s| && At(s, i) == s[i]
  {
  }

  /** A literal closed for the parser is closed for the minifier. */
  lemma {:induction false} BodyCloses(s: string, k: nat)
    requires WellEscaped(s, k) && At(s, Body(s, k).1) == '\"'
    ensures k <= Body(s, k).1 < |s| && LiteralEnd(s[k..]) == Some(Body(s, k).1 - k + 1)
    decreases |s| - k
  {
    hide Body, LiteralEnd, WellEscaped, HexAt, EscapeAt, UnicodeAt;
    BodyWithin(s, k);
    UnitsNext(s, k);
    WellEscapedAt(s, k);
    if At(s, k) == '\"' {
      LiteralAt(s, k);
    } else if At(s, k) != '\\' {
      BodyCloses(s, k + 1);
      LiteralMore(s, k, 1);
    } else {
      BodyEscape(s, k);
      if At(s, k + 1) != 'u' {
        BodyCloses(s, k + 2);
        LiteralMore(s, k, 2);
      } else {
        UnicodeFits(s, k + 1);
        var j := UnicodeAt(s, k + 1).1;
        if j == k + 12 { WellEscapedAt(s, k + 6); }
        BodyCloses(s, j);
        if j == k + 12 { UnicodeMore(s, k + 6); }
        UnicodeMore(s, k);
      }
    }
  }

  lemma BodyWithin(s: string, k: nat)
    ensures k <= Body(s, k).1
    ensures At(s, Body(s, k).1) == '\"' ==> Body(s, k).1 < |s|
  {
    hide Body;
  }

  /** One character, or a backslash and the one behind it, in front of a closed remainder. */
  lemma LiteralMore(s: string, k: nat, d: nat)
    requires k < |s| && k + d <= |s| && LiteralEnd(s[k + d..]).Some?
    requires if d == 1 then s[k] != '\"' && s[k] != '\\' else d == 2 && s[k] == '\\'
    ensures LiteralEnd(s[k..]) == Some(LiteralEnd(s[k + d..]).value + d)
  {
    assert s[k..][d..] == s[k + d..];
  }

  lemma UnicodeMore(s: string, k: nat)
    requires At(s, k) == '\\' && HexAt(s, k + 2) && k + 6 <= |s| && LiteralEnd(s[k + 6..]).Some?
    ensures LiteralEnd(s[k..]) == Some(LiteralEnd(s[k + 6..]).value + 6)
  {
    hide LiteralEnd, HexValue;
    HexIsPlain(At(s, k + 2));
    HexIsPlain(At(s, k + 3));
    HexIsPlain(At(s, k + 4));
    HexIsPlain(At(s, k + 5));
    LiteralMore(s, k + 5, 1);
    LiteralMore(s, k + 4, 1);
    LiteralMore(s, k + 3, 1);
    LiteralMore(s, k + 2, 1);
    LiteralMore(s, k, 2);
  }

  /** The literal at position i ends with a quotation mark and not with the text. */
  predicate Closed(s: string, i: nat) {
    At(s, Body(s, i + 1).1) == '\"'
  }

  lemma StringBack(s: string, i: nat)
    requires Escaped(s) && At(s, i) == '\"' && Closed(s, i) && Minifies(s, StringAt(s, i).value.1)
    ensures Minifies(s, i)
  {
    hide Minifies, LiteralEnd, WellEscaped, Body, Escaped;
    AtInside(s, i);
    EscapedAt(s, i);
    StringIs(s, i);
    BodyCloses(s, i + 1);
    LiteralBack(s, i, Body(s, i + 1).1 - i);
  }

  /** A literal that ends with the text has nothing behind it. */
  lemma UnclosedIsLast(s: string, i: nat)
    requires NulFree(s) && At(s, i) == '\"' && !Closed(s, i)
    ensures StringAt(s, i).Some? && At(s, Skip(s, StringAt(s, i).value.1)) == NUL
  {
    hide Body;
    StringIs(s, i);
    var e := Body(s, i + 1).1;
    assert At(s, e) == NUL;
    AllRead(s, e);
  }

  lemma ScalarBack(s: string, i: nat)
    requires NulFree(s) && Escaped(s) && ValueAt(s, i).Some? && Minifies(s, ValueAt(s, i).value.1)
    requires At(s, i) != '[' && At(s, i) != '{' && (At(s, i) == '\"' ==> Closed(s, i))
    ensures Minifies(s, i)
  {
    hide *;
    ScalarAt(s, i);
    NotLiteral(s, i);
    if Here(s, i, "null") {
      WordBack(s, i, "null");
    } else if Here(s, i, "false") {
      WordBack(s, i, "false");
    } else if Here(s, i, "true") {
      WordBack(s, i, "true");
    } else if At(s, i) == '\"' {
      StringBack(s, i);
    } else {
      NumberChars(s, i);
      NumberMoves(s, i);
      StretchBack(s, i, NumberAt(s, i).1);
    }
  }

  lemma WordBack(s: string, i: nat, t: string)
    requires Here(s, i, t) && Minifies(s, i + |t|) && (t == "null" || t == "false" || t == "true")
    ensures Minifies(s, i)
  {
    hide Minifies, IsPlain;
    PlainWords();
    forall k | i <= k < i + |t| ensures IsPlain(s[k]) {
      assert s[k] == s[i..i + |t|][k - i] == t[k - i];
    }
    StretchBack(s, i, i + |t|);
  }

  lemma {:induction false} ValueBack(s: string, i: nat)
    requires NulFree(s) && Escaped(s) && ValueAt(s, i).Some? && Minifies(s, ValueAt(s, i).value.1)
    requires At(s, i) == '\"' ==> Closed(s, i)
    ensures Minifies(s, i)
    decreases |s| - i, 1
  {
    hide *;
    ValueFirst(s, i);
    var j := Skip(s, i + 1);
    Opening(s, i);
    if At(s, i) == '[' {
      ArrayAt(s, i);
      if At(s, j) == ']' { MarkBack(s, j); } else { ItemsBack(s, j); }
    } else if At(s, i) == '{' {
      ObjectAt(s, i);
      if At(s, j) == '}' { MarkBack(s, j); } else { MembersBack(s, j); }
    } else {
      ScalarBack(s, i);
      return;
    }
    SkipBack(s, i + 1);
    MarkBack(s, i);
  }

  lemma {:induction false} ItemsBack(s: string, i: nat)
    requires NulFree(s) && Escaped(s) && ItemsAt(s, i).Some? && Minifies(s, ItemsAt(s, i).value.1)
    ensures Minifies(s, i)
    decreases |s| - i, 2
  {
    hide *;
    ItemsUnfold(s, i);
    var k := Skip(s, i);
    SkipAhead(s, i);
    ValueFirst(s, k);
    var f := ValueAt(s, k).value.1;
    var j := Skip(s, f);
    ValueMoves(s, k);
    SkipAhead(s, f);
    if At(s, j) == ',' { ItemsBack(s, j + 1); }
    MarkBack(s, j);
    SkipBack(s, f);
    if At(s, k) == '\"' && !Closed(s, k) {
      ScalarAt(s, k);
      UnclosedIsLast(s, k);
    }
    CommaIsNoEnd();
    ValueBack(s, k);
    SkipBack(s, i);
  }

  lemma CommaIsNoEnd()
    ensures ',' != NUL && ']' != NUL && '}' != NUL && ':' != NUL
  {
  }

  lemma {:induction false} MembersBack(s: string, i: nat)
    requires NulFree(s) && Escaped(s) && MembersAt(s, i).Some? && Minifies(s, MembersAt(s, i).value.1)
    ensures Minifies(s, i)
    decreases |s| - i, 2
  {
    hide *;
    MembersUnfold(s, i);
    MemberParts(s, i);
    CommaIsNoEnd();
    var k := Skip(s, i);
    var e := StringAt(s, k).value.1;
    var m := Skip(s, Skip(s, e) + 1);
    var f := ValueAt(s, m).value.1;
    var j := Skip(s, f);
    ValueFirst(s, m);
    ValueMoves(s, m);
    SkipAhead(s, f);
    if At(s, j) == ',' { MembersBack(s, j + 1); }
    MarkBack(s, j);
    SkipBack(s, f);
    if At(s, m) == '\"' && !Closed(s, m) {
      ScalarAt(s, m);
      UnclosedIsLast(s, m);
    }
    ValueBack(s, m);
    SkipBack(s, Skip(s, e) + 1);
    MarkBack(s, Skip(s, e));
    SkipBack(s, e);
    if !Closed(s, k) { UnclosedIsLast(s, k); }
    StringBack(s, k);
    SkipBack(s, i);
  }

  /** A text that parses as a whole and whose escapes are complete can be minified exactly when it is
    * not a bare string literal that lacks its closing quotation mark. */
  lemma MinifiesIff(s: string)
    requires NulFree(s) && Escaped(s) && Parse(s, true).Some?
    ensures var i := Skip(s, 0); Minify(s).Some? <==> (At(s, i) == '\"' ==> Closed(s, i))
  {
    hide *;
    ParseIs(s, true);
    var i := Skip(s, 0);
    assert s[0..] == s;
    MinifiesStart(s);
    if At(s, i) == '\"' && !Closed(s, i) {
      if Minify(s).Some? {
        UnclosedStays(s, i);
        assert false;
      }
    } else {
      var e := ValueAt(s, i).value.1;
      ValueFirst(s, i);
      ValueWithin(s, i);
      AllRead(s, Skip(s, e));
      SkipWithin(s, e);
      assert Skip(s, e) == |s|;
      MinifiesEnd(s);
      SkipBack(s, e);
      ValueBack(s, i);
      SkipBack(s, 0);
    }
  }

  lemma MinifiesStart(s: string)
    ensures Minifies(s, 0) <==> Minify(s).Some?
  {
    assert s[0..] == s;
  }

  lemma UnclosedStays(s: string, i: nat)
    requires NulFree(s) && Escaped(s) && i == Skip(s, 0) && At(s, i) == '\"' && !Closed(s, i)
    ensures Minify(s).None?
  {
    hide *;
    if Minify(s).Some? {
      var u := Minify(s).value;
      FollowsStart(s, u);
      var p := SkipNextTo(s, u, 0, 0);
      AtInside(s, i);
      MarkNotNul();
      var n := LiteralNext(s, u, i, p);
      EscapedAt(s, i);
      EqualSelf(s, i + 1, n);
      BodyEqual(s, s, i + 1, i + 1, n);
      ClosedIs(s, i);
      assert false;
    }
  }

  lemma MarkNotNul()
    ensures '\"' != NUL && '\"' != '/'
  {
  }

  lemma ClosedIs(s: string, i: nat)
    ensures Closed(s, i) <==> At(s, Body(s, i + 1).1) == '\"'
  {
    hide Body;
  }

  lemma EqualSelf(s: string, i: nat, n: nat)
    ensures Equal(s, s, i, i, n)
  {
  }

  lemma {:induction false} SkipWithin(s: string, i: nat)
    requires i <= |s|
    ensures Skip(s, i) <= |s|
    decreases |s| - i
  {
    if i < |s| { SkipWithin(s, i + 1); }
  }

  lemma {:induction false} ItemsWithin(s: string, i: nat)
    requires ItemsAt(s, i).Some?
    ensures ItemsAt(s, i).value.1 <= |s|
    decreases |s| - i
  {
    hide *;
    ItemsUnfold(s, i);
    var k := Skip(s, i);
    SkipAhead(s, i);
    ValueFirst(s, k);
    ValueMoves(s, k);
    var j := Skip(s, ValueAt(s, k).value.1);
    SkipAhead(s, ValueAt(s, k).value.1);
    CommaIsNoEnd();
    AtInside(s, j);
    if At(s, j) == ',' { ItemsWithin(s, j + 1); }
  }

  lemma {:induction false} MembersWithin(s: string, i: nat)
    requires MembersAt(s, i).Some?
    ensures MembersAt(s, i).value.1 <= |s|
    decreases |s| - i
  {
    hide *;
    MembersUnfold(s, i);
    MemberParts(s, i);
    SkipAhead(s, i);
    AtInside(s, Skip(s, i));
    MarkNotNul();
    var j := Skip(s, MemberAt(s, i).value.1);
    SkipAhead(s, MemberAt(s, i).value.1);
    CommaIsNoEnd();
    AtInside(s, j);
    if At(s, j) == ',' { MembersWithin(s, j + 1); }
  }

  /** A parsed value ends inside the text or with it. */
  lemma ValueWithin(s: string, i: nat)
    requires ValueAt(s, i).Some? && (At(s, i) == '\"' ==> Closed(s, i))
    ensures ValueAt(s, i).value.1 <= |s|
  {
    hide *;
    ValueFirst(s, i);
    var j := Skip(s, i + 1);
    CommaIsNoEnd();
    AtInside(s, j);
    if At(s, i) == '[' {
      ArrayAt(s, i);
      if At(s, j) != ']' { ItemsWithin(s, j); }
    } else if At(s, i) == '{' {
      ObjectAt(s, i);
      if At(s, j) != '}' { MembersWithin(s, j); }
    } else {
      ScalarAt(s, i);
      NumberChars(s, i);
      StringIs(s, i);
      ClosedIs(s, i);
      BodyWithin(s, i + 1);
      WordsWithin(s, i);
    }
  }

  lemma WordsWithin(s: string, i: nat)
    ensures Here(s, i, "null") || Here(s, i, "true") ==> i + 4 <= |s|
    ensures Here(s, i, "false") ==> i + 5 <= |s|
  {
  }

  /** Minifying keeps the meaning of every text that parses as a whole and whose escapes are complete,
    * unless it is a bare string literal that lacks its closing quotation mark. */
  lemma MinifyKeepsMeaning(s: string)
    requires NulFree(s) && Escaped(s) && Parse(s, true).Some?
    requires At(s, Skip(s, 0)) == '\"' ==> Closed(s, Skip(s, 0))
    ensures Minify(s).Some? && Parse(Minify(s).value, true) == Some((Parse(s, true).value.0, |Minify(s).value|))
  {
    hide *;
    MinifiesIff(s);
    var u := Minify(s).value;
    assert s[0..] == s && u[0..] == u;
    FollowsStart(s, u);
    ParseIs(s, true);
    ParseIs(u, true);
    var i := Skip(s, 0);
    ValueFirst(s, i);
    var p := SkipNextTo(s, u, 0, 0);
    var e := ValueAt(s, i).value.1;
    ClosesIs(At(s, Skip(s, e)));
    var q := ValueKept(s, u, i, p);
    var end := SkipNextTo(s, u, e, q);
    AllRead(s, Skip(s, e));
    FollowsBounds(s, u, Skip(s, e), end);
    Ends(s, u, Skip(s, e), end);
  }

  /** So every text that stands for anything but a string is minified to a text with the same tree. */
  lemma TreesKeepTheirMeaning(s: string)
    requires NulFree(s) && Escaped(s) && Parse(s, true).Some? && !Parse(s, true).value.0.Str?
    ensures Minify(s).Some? && Parse(Minify(s).value, true) == Some((Parse(s, true).value.0, |Minify(s).value|))
  {
    hide *;
    ParseIs(s, true);
    ScalarAt(s, Skip(s, 0));
    MinifyKeepsMeaning(s);
  }

  lemma FollowsStart(s: string, u: string)
    requires Minify(s) == Some(u)
    ensures Follows(s, u, 0, 0)
  {
    hide Minify;
    assert s[0..] == s && u[0..] == u;
  }

  lemma AllRead(s: string, i: nat)
    requires NulFree(s) && At(s, i) == NUL
    ensures i >= |s|
  {
  }

  /** The parser takes a literal that is never closed; minifying such a text would run past its end. */
  lemma UnclosedLiteral()
    ensures Parse("\"a", true) == Some((Str("a"), 2)) && Minify("\"a").None?
  {
    var s := "\"a";
    assert At(s, 0) == '\"' && At(s, 1) == 'a' && At(s, 2) == NUL;
    assert Body(s, 2) == ([], 2);
    assert Body(s, 1) == (['a'] + [], 2);
    assert ['a'] + [] == "a";
    StringIs(s, 0);
    assert StringAt(s, 0) == Some(("a", 2));
    ScalarAt(s, 0);
    assert ValueAt(s, 0) == Some((Str("a"), 2));
    assert Skip(s, 0) == 0 && Skip(s, 2) == 2;
    ParseIs(s, true);
    UnclosedEnd(s);
  }

  lemma UnclosedEnd(s: string)
    requires s == "\"a"
    ensures Minify(s).None?
  {
    assert s[1..] == "a" && "a"[1..] == "";
    assert LiteralEnd("").None?;
    assert LiteralEnd("a").None?;
    StepLiteral(s);
  }
}
