/** The buffers of the printer and of the parser: every length counted before an allocation is enough
  * for what is written into it afterwards. */
module JsonBuffers {
  import opened Options
  import opened JsonText
  import opened JsonParse
  import opened Texts

  // ---------- writing ----------

  /** The first at characters of a buffer are t. */
  ghost predicate Written(buf: seq<char>, at: nat, t: string) {
    at == |t| <= |buf| && buf[..at] == t
  }

  method Put(out: array<char>, at: nat, c: char, ghost t: string) returns (at': nat)
    requires Written(out[..], at, t) && at < out.Length
    modifies out
    ensures at' == at + 1 && Written(out[..], at', t + [c])
  {
    out[at] := c;
    at' := at + 1;
  }

  /** The text with its terminator. */
  lemma Finished(buf: seq<char>, t: string)
    requires NulFree(t) && Written(buf, |t| + 1, t + [NUL])
    ensures Holds(buf, t)
  {
    assert buf[..|t| + 1][..|t|] == t && buf[..|t| + 1][|t|] == NUL;
    assert buf[..|t|] == buf[..|t| + 1][..|t|];
  }

  // ---------- print_string_ptr ----------

  /** What the source counts for a character. */
  function Cost(c: char): nat {
    if c == '\"' || c == '\\' || c == 8 as char || c == 12 as char || c == '\n' || c == '\r' || c == '\t' then 2
    else if c < 32 as char then 6
    else 1
  }

  lemma CostIsExact(c: char)
    ensures |EscapeChar(c)| == Cost(c)
  {
  }

  lemma EscapeNext(s: string, i: nat)
    requires i < |s|
    ensures Escape(s[i..]) == EscapeChar(s[i]) + Escape(s[i + 1..])
    ensures |EscapeChar(s[i])| == Cost(s[i])
  {
    hide EscapeChar;
    CostIsExact(s[i]);
    assert s[i..][1..] == s[i + 1..];
  }

  lemma EscapeDone(s: string)
    ensures Escape(s[|s|..]) == []
  {
  }

  lemma {:induction false} EscapeNulFree(s: string)
    requires NulFree(s)
    ensures NulFree(Escape(s))
  {
    if s != [] { EscapeNulFree(s[1..]); }
  }

  lemma QuoteIs(s: string)
    requires NulFree(s)
    ensures Quote(s) == ['\"'] + Escape(s) + ['\"'] && NulFree(Quote(s)) && |Quote(s)| == |Escape(s)| + 2
  {
    EscapeNulFree(s);
  }

  /** The character read at a position of NUL-terminated text. */
  lemma Reads(s: string, i: nat)
    requires NulFree(s) && i <= |s|
    ensures At(s, i) == NUL <==> i == |s|
    ensures i < |s| ==> At(s, i) == s[i]
  {
  }

  method EscapedLength(s: string) returns (len: nat)
    requires NulFree(s)
    ensures len == |Escape(s)|
  {
    hide *;
    len := 0;
    var ptr: nat := 0;
    assert s[0..] == s;
    Reads(s, 0);
    while At(s, ptr) != NUL
      invariant ptr <= |s| && (At(s, ptr) == NUL <==> ptr == |s|)
      invariant len + |Escape(s[ptr..])| == |Escape(s)|
      decreases |s| - ptr
    {
      Reads(s, ptr);
      EscapeNext(s, ptr);
      len := len + Cost(s[ptr]);
      ptr := ptr + 1;
      Reads(s, ptr);
    }
    EscapeDone(s);
  }

  lemma ShortForms(c: char)
    ensures !(c > 31 as char && c != '\"' && c != '\\') ==> EscapeChar(c) == ['\\'] + ShortEscape(c)
    ensures c > 31 as char && c != '\"' && c != '\\' ==> EscapeChar(c) == [c]
  {
  }

  /** One character: as it is, or a backslash and its escape. */
  method PutEscaped(out: array<char>, at: nat, c: char, ghost t: string) returns (at': nat)
    requires Written(out[..], at, t) && at + |EscapeChar(c)| < out.Length
    modifies out
    ensures at' == at + |EscapeChar(c)| && Written(out[..], at', t + EscapeChar(c))
  {
    hide Written, EscapeChar, ShortEscape;
    ShortForms(c);
    if c > 31 as char && c != '\"' && c != '\\' {
      at' := Put(out, at, c, t);
    } else {
      at' := Put(out, at, '\\', t);
      at' := PutShort(out, at', c, t + ['\\']);
      assert t + ['\\'] + ShortEscape(c) == t + EscapeChar(c);
    }
  }

  lemma ShortIs(c: char)
    ensures c == '\\' || c == '\"' ==> ShortEscape(c) == [c]
    ensures c == 8 as char ==> ShortEscape(c) == ['b']
    ensures c == 12 as char ==> ShortEscape(c) == ['f']
    ensures c == '\n' ==> ShortEscape(c) == ['n']
    ensures c == '\r' ==> ShortEscape(c) == ['r']
    ensures c == '\t' ==> ShortEscape(c) == ['t']
    ensures c < 32 as char && Cost(c) == 6 ==> ShortEscape(c) == ControlEscape(c) && |ControlEscape(c)| == 5
  {
  }

  method PutShort(out: array<char>, at: nat, c: char, ghost t: string) returns (at': nat)
    requires c <= 31 as char || c == '\"' || c == '\\'
    requires Written(out[..], at, t) && at + |ShortEscape(c)| < out.Length
    modifies out
    ensures at' == at + |ShortEscape(c)| && Written(out[..], at', t + ShortEscape(c))
  {
    hide Written, ShortEscape, ControlEscape;
    ShortIs(c);
    if c == '\\' { at' := Put(out, at, '\\', t); }
    else if c == '\"' { at' := Put(out, at, '\"', t); }
    else if c == 8 as char { at' := Put(out, at, 'b', t); }
    else if c == 12 as char { at' := Put(out, at, 'f', t); }
    else if c == '\n' { at' := Put(out, at, 'n', t); }
    else if c == '\r' { at' := Put(out, at, 'r', t); }
    else if c == '\t' { at' := Put(out, at, 't', t); }
    else { at' := PutText(out, at, ControlEscape(c), t); }
  }

  /** strcpy or sprintf at a position: the text, then its terminator. */
  method PutText(out: array<char>, at: nat, u: string, ghost t: string) returns (at': nat)
    requires Written(out[..], at, t) && at + |u| < out.Length
    modifies out
    ensures at' == at + |u| && Written(out[..], at', t + u)
  {
    hide Written;
    at' := at;
    assert t + u[..0] == t;
    for i := 0 to |u|
      invariant at' == at + i && Written(out[..], at', t + u[..i])
    {
      assert t + u[..i + 1] == t + u[..i] + [u[i]];
      at' := Put(out, at', u[i], t + u[..i]);
    }
    assert u[..|u|] == u;
    WrittenPrefix(out, at', t + u);
    out[at'] := NUL;
    assert out[..at'] == t + u;
    PrefixWritten(out, at', t + u);
  }

  lemma WrittenPrefix(out: array<char>, at: nat, t: string)
    requires Written(out[..], at, t)
    ensures at == |t| <= out.Length && out[..at] == t
  {
    assert out[..][..at] == out[..at];
  }

  lemma PrefixWritten(out: array<char>, at: nat, t: string)
    requires at == |t| <= out.Length && out[..at] == t
    ensures Written(out[..], at, t)
  {
    assert out[..][..at] == out[..at];
  }

  lemma Blank(buf: seq<char>)
    ensures Written(buf, 0, [])
  {
  }

  /** print_string_ptr: the buffer has room for the quoted text and its terminator and not one
    * character more. */
  method PrintString(s: string) returns (out: array<char>)
    requires NulFree(s)
    ensures fresh(out) && out.Length == |Quote(s)| + 1 && Holds(out[..], Quote(s))
  {
    hide *;
    QuoteIs(s);
    var len := EscapedLength(s);
    out := new char[len + 3];
    var at: nat, ptr: nat := 0, 0;
    Blank(out[..]);
    at := Put(out, at, '\"', []);
    ghost var t: string := ['\"'];
    assert [] + ['\"'] == t;
    Reads(s, 0);
    assert s[0..] == s;
    while At(s, ptr) != NUL
      invariant ptr <= |s| && (At(s, ptr) == NUL <==> ptr == |s|)
      invariant at == |t| && at + |Escape(s[ptr..])| == len + 1
      invariant Written(out[..], at, t) && t + Escape(s[ptr..]) == ['\"'] + Escape(s)
      decreases |s| - ptr
    {
      Reads(s, ptr);
      EscapeNext(s, ptr);
      var c := At(s, ptr);
      assert t + (EscapeChar(c) + Escape(s[ptr + 1..])) == t + EscapeChar(c) + Escape(s[ptr + 1..]);
      at := PutEscaped(out, at, c, t);
      t := t + EscapeChar(c);
      ptr := ptr + 1;
      Reads(s, ptr);
    }
    EscapeDone(s);
    assert t + [] == t;
    at := Put(out, at, '\"', t);
    at := Put(out, at, NUL, t + ['\"']);
    Finished(out[..], Quote(s));
  }

  // ---------- parse_string ----------

  /** What the first pass counts from position i on: one for each character or escape. */
  function Units(s: string, i: nat): (n: nat)
    decreases |s| - i
  {
    if At(s, i) == '\"' || At(s, i) == NUL then 0
    else if At(s, i) == '\\' then 1 + Units(s, i + 2)
    else 1 + Units(s, i + 1)
  }

  predicate IsHex(c: char) {
    HexValue(c).Some?
  }

  predicate HexAt(s: string, i: nat) {
    IsHex(At(s, i)) && IsHex(At(s, i + 1)) && IsHex(At(s, i + 2)) && IsHex(At(s, i + 3))
  }

  /** No escape of the literal is cut off: every \u is followed by four hexadecimal digits. */
  predicate WellEscaped(s: string, i: nat)
    decreases |s| - i
  {
    if At(s, i) == '\"' || At(s, i) == NUL then true
    else if At(s, i) != '\\' then WellEscaped(s, i + 1)
    else if At(s, i + 1) == NUL then false
    else if At(s, i + 1) != 'u' then WellEscaped(s, i + 2)
    else HexAt(s, i + 2) && WellEscaped(s, i + 6)
  }

  lemma HexIsPlain(c: char)
    requires IsHex(c)
    ensures c != '\"' && c != NUL && c != '\\'
  {
  }

  lemma UnitsPlain(s: string, i: nat)
    requires IsHex(At(s, i))
    ensures Units(s, i) == 1 + Units(s, i + 1)
  {
    HexIsPlain(At(s, i));
  }

  /** An escape with four digits counts for five. */
  lemma UnitsOfUnicode(s: string, i: nat)
    requires At(s, i) == '\\' && HexAt(s, i + 2)
    ensures Units(s, i) == 5 + Units(s, i + 6)
  {
    assert Units(s, i) == 1 + Units(s, i + 2);
    hide Units, IsHex;
    UnitsPlain(s, i + 2);
    UnitsPlain(s, i + 3);
    UnitsPlain(s, i + 4);
    UnitsPlain(s, i + 5);
  }

  /** At most four bytes for one or two escapes. */
  lemma UnicodeFits(s: string, i: nat)
    ensures var (c, j) := UnicodeAt(s, i);
            |c| <= 4 && (j == i + 5 || (j == i + 11 && At(s, i + 5) == '\\' && At(s, i + 6) == 'u'))
  {
    hide Hex4, Utf8;
  }

  /** The decoded characters never outnumber the units of the first pass. */
  lemma {:induction false} BodyFits(s: string, i: nat)
    requires WellEscaped(s, i)
    ensures |Body(s, i).0| <= Units(s, i)
    decreases |s| - i
  {
    hide EscapeAt, HexAt, UnicodeAt;
    if At(s, i) == '\"' || At(s, i) == NUL {
    } else if At(s, i) != '\\' {
      BodyFits(s, i + 1);
    } else {
      BodyEscape(s, i);
      if At(s, i + 1) != 'u' {
        BodyFits(s, i + 2);
      } else {
        UnicodeFits(s, i + 1);
        UnitsOfUnicode(s, i);
        if UnicodeAt(s, i + 1).1 == i + 6 {
          BodyFits(s, i + 6);
        } else {
          UnitsOfUnicode(s, i + 6);
          BodyFits(s, i + 12);
        }
      }
    }
  }

  lemma Utf8NulFree(uc: nat)
    requires 0 < uc < 0x11_0000
    ensures NulFree(Utf8(uc))
  {
    assert Trail(uc) != NUL && Trail(uc / 64) != NUL && Trail(uc / 64 / 64) != NUL;
  }

  lemma EscapeNotNul(s: string, i: nat)
    requires At(s, i) != NUL
    ensures NulFree(EscapeAt(s, i).0)
  {
    hide Hex4, Utf8, NulFree;
    SingleNulFree(8 as char);
    SingleNulFree(12 as char);
    SingleNulFree('\n');
    SingleNulFree('\r');
    SingleNulFree('\t');
    if At(s, i) == 'u' {
      var uc, uc2 := Hex4(s, i + 1), Hex4(s, i + 7);
      Utf8NulFree(0x1_0000 + (uc % 0x400) * 0x400 + uc2 % 0x400);
      if uc > 0 { Utf8NulFree(uc); }
    } else {
      SingleNulFree(At(s, i));
    }
  }

  lemma SingleNulFree(c: char)
    ensures NulFree([]) && (NulFree([c]) <==> c != NUL)
  {
    assert c in [c];
  }

  lemma {:induction false} BodyNulFree(s: string, i: nat)
    requires WellEscaped(s, i)
    ensures NulFree(Body(s, i).0)
    decreases |s| - i
  {
    hide EscapeAt, HexAt, UnicodeAt;
    if At(s, i) == '\"' || At(s, i) == NUL {
    } else if At(s, i) != '\\' {
      BodyNulFree(s, i + 1);
    } else {
      BodyEscape(s, i);
      EscapeNotNul(s, i + 1);
      if At(s, i + 1) != 'u' {
        BodyNulFree(s, i + 2);
      } else {
        UnicodeFits(s, i + 1);
        if UnicodeAt(s, i + 1).1 == i + 6 { BodyNulFree(s, i + 6); } else { BodyNulFree(s, i + 12); }
      }
    }
  }

  lemma UnitsNext(s: string, i: nat)
    ensures At(s, i) == '\"' || At(s, i) == NUL ==> Units(s, i) == 0 && Body(s, i) == ([], i)
    ensures At(s, i) != '\"' && At(s, i) != NUL ==> i < |s|
    ensures At(s, i) == '\\' ==> Units(s, i) == 1 + Units(s, i + 2)
    ensures At(s, i) != '\"' && At(s, i) != NUL && At(s, i) != '\\' ==>
              Units(s, i) == 1 + Units(s, i + 1) && Body(s, i) == ([At(s, i)] + Body(s, i + 1).0, Body(s, i + 1).1)
  {
    hide EscapeAt;
  }

  /** The first pass. */
  method LiteralLength(s: string, start: nat) returns (len: nat)
    ensures len == Units(s, start)
  {
    hide *;
    len := 0;
    var ptr: nat := start;
    UnitsNext(s, ptr);
    while At(s, ptr) != '\"' && At(s, ptr) != NUL
      invariant len + Units(s, ptr) == Units(s, start)
      decreases |s| - ptr
    {
      UnitsNext(s, ptr);
      len := len + 1;
      ptr := if At(s, ptr) == '\\' then ptr + 2 else ptr + 1;
    }
    UnitsNext(s, ptr);
  }

  function FirstByteMark(len: nat): nat
    requires 1 <= len <= 4
  {
    if len == 1 then 0x00 else if len == 2 then 0xC0 else if len == 3 then 0xE0 else 0xF0
  }

  function Shift6(v: nat): nat {
    v / 64
  }

  lemma JoinSix(hi: bv32, lo: bv6)
    requires hi < 0x400_0000
    ensures ((hi << 6) | (lo as bv32)) as nat == (hi as nat) * 64 + lo as nat
    ensures lo as nat < 64 && (0x80 | (lo as bv32)) as nat == 0x80 + lo as nat
  {
  }

  /** A machine word is its upper bits and its low six bits. */
  lemma LowSix(uc: bv32) returns (hi: bv32, lo: bv6)
    ensures hi == uc >> 6 && hi < 0x400_0000 && uc == (hi << 6) | (lo as bv32)
    ensures (uc | 0x80) & 0xBF == 0x80 | (lo as bv32)
  {
    hi, lo := uc >> 6, (uc & 0x3F) as bv6;
  }

  lemma QuotientOf(x: nat, h: nat, l: nat)
    requires x == h * 64 + l && l < 64
    ensures Shift6(x) == h && Trail(x) as nat == 0x80 + l
  {
  }

  /** Continuation bytes: the source masks and shifts machine words, the model takes remainders and
    * quotients of numbers. */
  lemma TrailMasks(uc: bv32)
    ensures (uc >> 6) as nat == Shift6(uc as nat)
    ensures ((uc | 0x80) & 0xBF) as nat == Trail(uc as nat) as nat
  {
    hide *;
    var hi, lo := LowSix(uc);
    JoinSix(hi, lo);
    QuotientOf(uc as nat, hi as nat, lo as nat);
  }

  /** First bytes: or-ing a mark adds it. */
  lemma FirstByteMasks(uc: bv32)
    ensures uc < 0x80 ==> (uc | 0x00) as nat == FirstByteMark(1) + uc as nat
    ensures uc < 0x20 ==> (uc | 0xC0) as nat == FirstByteMark(2) + uc as nat
    ensures uc < 0x10 ==> (uc | 0xE0) as nat == FirstByteMark(3) + uc as nat
    ensures uc < 0x08 ==> (uc | 0xF0) as nat == FirstByteMark(4) + uc as nat
  {
  }

  lemma JoinTen(hi: bv32, lo: bv10)
    requires hi < 0x40_0000
    ensures ((hi << 10) | (lo as bv32)) as nat == (hi as nat) * 0x400 + lo as nat && lo as nat < 0x400
    ensures (lo as bv32) as nat == lo as nat
  {
  }

  /** A machine word is its upper bits and its low ten bits. */
  lemma LowTen(uc: bv32) returns (hi: bv32, lo: bv10)
    ensures hi < 0x40_0000 && uc == (hi << 10) | (lo as bv32) && uc & 0x3FF == lo as bv32
    ensures (uc & 0x3FF) < 0x40_0000
  {
    hi, lo := uc >> 10, (uc & 0x3FF) as bv10;
  }

  lemma RemainderOf(x: nat, h: nat, l: nat)
    requires x == h * 0x400 + l && l < 0x400
    ensures x % 0x400 == l
  {
  }

  /** The two halves of a surrogate pair are joined on words as they are on numbers. */
  lemma SurrogateMasks(uc: bv32, uc2: bv32)
    ensures (((uc & 0x3FF) << 10) | (uc2 & 0x3FF)) as nat == (uc as nat % 0x400) * 0x400 + uc2 as nat % 0x400
  {
    hide *;
    var hi, lo := LowTen(uc);
    var hi2, lo2 := LowTen(uc2);
    JoinTen(hi, lo);
    JoinTen(hi2, lo2);
    RemainderOf(uc as nat, hi as nat, lo as nat);
    RemainderOf(uc2 as nat, hi2 as nat, lo2 as nat);
    JoinTen(uc & 0x3FF, lo2);
  }

  lemma Utf8Is(uc: nat)
    requires 0 < uc < 0x11_0000
    ensures var (a, b, c) := (Shift6(uc), Shift6(Shift6(uc)), Shift6(Shift6(Shift6(uc))));
            if uc < 0x80 then Utf8(uc) == [uc as char]
            else if uc < 0x800 then a < 0x20 && Utf8(uc) == [(0xC0 + a) as char, Trail(uc)]
            else if uc < 0x1_0000 then b < 0x10 && Utf8(uc) == [(0xE0 + b) as char, Trail(a), Trail(uc)]
            else c < 0x08 && Utf8(uc) == [(0xF0 + c) as char, Trail(b), Trail(a), Trail(uc)]
  {
    hide Trail;
  }

  /** The bytes of a code point, written from the last to the first. */
  method PutUtf8(out: array<char>, at: nat, uc: nat, ghost t: string) returns (at': nat)
    requires 0 < uc < 0x11_0000
    requires Written(out[..], at, t) && at + |Utf8(uc)| < out.Length
    modifies out
    ensures at' == at + |Utf8(uc)| && Written(out[..], at', t + Utf8(uc))
  {
    hide Utf8, Trail, Shift6;
    Utf8Is(uc);
    var len := if uc < 0x80 then 1 else if uc < 0x800 then 2 else if uc < 0x1_0000 then 3 else 4;
    at' := at + len;
    var p, v := at', uc;
    if len >= 4 { p := p - 1; out[p] := Trail(v); v := Shift6(v); }
    if len >= 3 { p := p - 1; out[p] := Trail(v); v := Shift6(v); }
    if len >= 2 { p := p - 1; out[p] := Trail(v); v := Shift6(v); }
    p := p - 1;
    out[p] := (FirstByteMark(len) + v) as char;
    assert out[..at] == t;
    assert out[at..at'] == Utf8(uc);
    assert out[..at'] == out[..at] + out[at..at'];
  }

  /** parse_string: the literal at position i, or null if there is none; the buffer counted by the
    * first pass takes all the characters written by the second and their terminator. */
  method ParseString(s: string, i: nat) returns (out: array?<char>, end: nat)
    requires WellEscaped(s, i + 1)
    ensures out == null <==> StringAt(s, i).None?
    ensures out != null ==> fresh(out) && StringAt(s, i).value.1 == end
    ensures out != null ==> Holds(out[..], StringAt(s, i).value.0)
  {
    hide *;
    StringIs(s, i);
    end := i;
    if At(s, i) != '\"' { return null, i; }
    var len := LiteralLength(s, i + 1);
    var buf := new char[len + 1];
    BodyFits(s, i + 1);
    var at: nat, ptr: nat := 0, i + 1;
    ghost var t: string := [];
    Blank(buf[..]);
    while At(s, ptr) != '\"' && At(s, ptr) != NUL
      invariant at == |t| && Written(buf[..], at, t)
      invariant t + Body(s, ptr).0 == Body(s, i + 1).0 && Body(s, ptr).1 == Body(s, i + 1).1
      decreases |s| - ptr
    {
      UnitsNext(s, ptr);
      ghost var rest := Body(s, ptr).0;
      if At(s, ptr) != '\\' {
        at := Put(buf, at, At(s, ptr), t);
        t := t + [At(s, ptr)];
        ptr := ptr + 1;
      } else {
        BodyEscape(s, ptr);
        ghost var c := EscapeAt(s, ptr + 1).0;
        at, ptr := PutEscape(buf, at, s, ptr + 1, t);
        t := t + c;
      }
    }
    UnitsNext(s, ptr);
    assert t + [] == t;
    at := Put(buf, at, NUL, t);
    BodyNulFree(s, i + 1);
    Finished(buf[..], t);
    out, end := buf, if At(s, ptr) == '\"' then ptr + 1 else ptr;
  }

  lemma StringIs(s: string, i: nat)
    ensures At(s, i) != '\"' ==> StringAt(s, i) == None
    ensures At(s, i) == '\"' ==>
              var (t, e) := Body(s, i + 1); StringAt(s, i) == Some((t, if At(s, e) == '\"' then e + 1 else e))
  {
    hide Body;
  }

  lemma EscapeIs(s: string, i: nat)
    ensures At(s, i) == 'b' ==> EscapeAt(s, i) == ([8 as char], i + 1)
    ensures At(s, i) == 'f' ==> EscapeAt(s, i) == ([12 as char], i + 1)
    ensures At(s, i) == 'n' ==> EscapeAt(s, i) == (['\n'], i + 1)
    ensures At(s, i) == 'r' ==> EscapeAt(s, i) == (['\r'], i + 1)
    ensures At(s, i) == 't' ==> EscapeAt(s, i) == (['\t'], i + 1)
    ensures At(s, i) == 'u' ==> EscapeAt(s, i) == UnicodeAt(s, i)
    ensures At(s, i) !in "bfnrtu" ==> EscapeAt(s, i) == ([At(s, i)], i + 1)
  {
    hide UnicodeAt;
  }

  lemma EscapeOther(s: string, i: nat)
    requires var c := At(s, i); c != 'b' && c != 'f' && c != 'n' && c != 'r' && c != 't' && c != 'u'
    ensures EscapeAt(s, i) == ([At(s, i)], i + 1)
  {
  }

  /** The escape whose letter is at position i. */
  method PutEscape(out: array<char>, at: nat, s: string, i: nat, ghost t: string) returns (at': nat, next: nat)
    requires Written(out[..], at, t) && at + |EscapeAt(s, i).0| < out.Length
    modifies out
    ensures var (c, j) := EscapeAt(s, i); at' == at + |c| && next == j && Written(out[..], at', t + c)
  {
    hide Written, EscapeAt, UnicodeAt, Body;
    EscapeIs(s, i);
    var c := At(s, i);
    next := i + 1;
    if c == 'b' { at' := Put(out, at, 8 as char, t); }
    else if c == 'f' { at' := Put(out, at, 12 as char, t); }
    else if c == 'n' { at' := Put(out, at, '\n', t); }
    else if c == 'r' { at' := Put(out, at, '\r', t); }
    else if c == 't' { at' := Put(out, at, '\t', t); }
    else if c == 'u' { at', next := PutUnicode(out, at, s, i, t); }
    else {
      EscapeOther(s, i);
      at' := Put(out, at, c, t);
    }
  }

  lemma UnicodeIs(s: string, i: nat)
    ensures var uc, uc2 := Hex4(s, i + 1), Hex4(s, i + 7);
            && ((0xDC00 <= uc <= 0xDFFF || uc == 0) ==> UnicodeAt(s, i) == ([], i + 5))
            && (0 < uc && !(0xD800 <= uc <= 0xDFFF) ==> UnicodeAt(s, i) == (Utf8(uc), i + 5))
            && (0xD800 <= uc <= 0xDBFF ==>
                  if At(s, i + 5) != '\\' || At(s, i + 6) != 'u' then UnicodeAt(s, i) == ([], i + 5)
                  else if uc2 < 0xDC00 || uc2 > 0xDFFF then UnicodeAt(s, i) == ([], i + 11)
                  else UnicodeAt(s, i) == (Utf8(0x1_0000 + (uc % 0x400) * 0x400 + uc2 % 0x400), i + 11))
  {
    hide Hex4, Utf8;
  }

  /** A \u escape, with the second half of a surrogate pair where there is one. */
  method PutUnicode(out: array<char>, at: nat, s: string, i: nat, ghost t: string) returns (at': nat, next: nat)
    requires Written(out[..], at, t) && at + |UnicodeAt(s, i).0| < out.Length
    modifies out
    ensures var (c, j) := UnicodeAt(s, i); at' == at + |c| && next == j && Written(out[..], at', t + c)
  {
    hide Written, UnicodeAt, Hex4, Utf8, At;
    UnicodeIs(s, i);
    assert t + [] == t;
    at' := at;
    var uc, ptr := Hex4(s, i + 1), i + 4;
    if (0xDC00 <= uc <= 0xDFFF) || uc == 0 { return at, ptr + 1; }
    if 0xD800 <= uc <= 0xDBFF {
      if At(s, ptr + 1) != '\\' || At(s, ptr + 2) != 'u' { return at, ptr + 1; }
      var uc2 := Hex4(s, ptr + 3);
      ptr := ptr + 6;
      if uc2 < 0xDC00 || uc2 > 0xDFFF { return at, ptr + 1; }
      uc := 0x1_0000 + (uc % 0x400) * 0x400 + uc2 % 0x400;
    }
    at' := PutUtf8(out, at, uc, t);
    next := ptr + 1;
  }
}
