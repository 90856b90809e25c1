/** Unicode escapes: UTF-16 code units in the text become UTF-8 bytes in the value. */
module JsonUnicode {
  import opened Options
  import opened JsonText
  import opened JsonParse
  import opened JsonRoundTrip
  import opened Texts

  /** The code points a string can hold: Unicode scalar values other than NUL. */
  predicate Scalar(v: nat) {
    0 < v <= 0x10_FFFF && !(0xD800 <= v <= 0xDFFF)
  }

  // ---------- UTF-8, section 3 of RFC 3629 ----------

  predicate ByteIn(c: char, lo: nat, hi: nat) {
    lo <= c as int <= hi
  }

  predicate Tail(c: char) {
    ByteIn(c, 0x80, 0xBF)
  }

  function Low6(c: char): nat
    requires Tail(c)
  {
    c as int - 0x80
  }

  /** The scalar value of a single well-formed byte sequence, shortest forms only. */
  function DecodeUtf8(t: string): Option<nat> {
    if |t| == 1 && ByteIn(t[0], 0x00, 0x7F) then Some(t[0] as int)
    else if |t| == 2 && ByteIn(t[0], 0xC2, 0xDF) && Tail(t[1]) then Some((t[0] as int - 0xC0) * 64 + Low6(t[1]))
    else if |t| == 3 && ByteIn(t[0], 0xE0, 0xEF) && Tail(t[1]) && Tail(t[2])
            && (t[0] as int == 0xE0 ==> t[1] as int >= 0xA0) && (t[0] as int == 0xED ==> t[1] as int <= 0x9F)
      then Some(((t[0] as int - 0xE0) * 64 + Low6(t[1])) * 64 + Low6(t[2]))
    else if |t| == 4 && ByteIn(t[0], 0xF0, 0xF4) && Tail(t[1]) && Tail(t[2]) && Tail(t[3])
            && (t[0] as int == 0xF0 ==> t[1] as int >= 0x90) && (t[0] as int == 0xF4 ==> t[1] as int <= 0x8F)
      then Some((((t[0] as int - 0xF0) * 64 + Low6(t[1])) * 64 + Low6(t[2])) * 64 + Low6(t[3]))
    else None
  }

  lemma Utf8Decodes(v: nat)
    requires Scalar(v)
    ensures DecodeUtf8(Utf8(v)) == Some(v)
  {
    assert v == (v / 64) * 64 + v % 64;
    assert v / 64 == (v / 64 / 64) * 64 + v / 64 % 64;
    assert v / 64 / 64 == (v / 64 / 64 / 64) * 64 + v / 64 / 64 % 64;
  }

  // ---------- UTF-16, sections 2.1 and 2.2 of RFC 2781 ----------

  function HighSurrogate(v: nat): nat
    requires 0x1_0000 <= v
  {
    0xD800 + (v - 0x1_0000) / 0x400
  }

  function LowSurrogate(v: nat): nat
    requires 0x1_0000 <= v
  {
    0xDC00 + (v - 0x1_0000) % 0x400
  }

  /** Four hexadecimal digits, in either case, with the given value. */
  predicate FourHex(t: string, h: nat) {
    && |t| == 4
    && HexValue(t[0]).Some? && HexValue(t[1]).Some? && HexValue(t[2]).Some? && HexValue(t[3]).Some?
    && HexNumber(HexValue(t[0]).value, HexValue(t[1]).value, HexValue(t[2]).value, HexValue(t[3]).value) == h
  }

  lemma FourHexReads(s: string, i: nat, t: string, h: nat)
    requires FourHex(t, h) && Here(s, i, t)
    ensures Hex4(s, i) == h
  {
    hide Here, HexNumber, HexValue;
    HereAt(s, i, t, 0);
    HereAt(s, i, t, 1);
    HereAt(s, i, t, 2);
    HereAt(s, i, t, 3);
  }

  /** A single escape, after its backslash, for a scalar value of the basic plane becomes its UTF-8
    * bytes. */
  lemma TranscodeUnit(s: string, i: nat, t: string, v: nat)
    requires Scalar(v) && v < 0x1_0000 && FourHex(t, v) && Here(s, i, ['u'] + t)
    ensures EscapeAt(s, i) == (Utf8(v), i + 5) && DecodeUtf8(Utf8(v)) == Some(v)
  {
    hide Here, FourHex, Utf8, Hex4, DecodeUtf8;
    HereSplit(s, i, ['u'], t);
    HereAt(s, i, ['u'], 0);
    FourHexReads(s, i + 1, t, v);
    Utf8Decodes(v);
  }

  /** A surrogate pair of escapes, after the first backslash, becomes the UTF-8 bytes of the value
    * it stands for. */
  lemma TranscodePair(s: string, i: nat, t1: string, t2: string, v: nat)
    requires Scalar(v) && v >= 0x1_0000 && FourHex(t1, HighSurrogate(v)) && FourHex(t2, LowSurrogate(v))
    requires Here(s, i, ['u'] + (t1 + (['\\', 'u'] + t2)))
    ensures EscapeAt(s, i) == (Utf8(v), i + 11) && DecodeUtf8(Utf8(v)) == Some(v)
  {
    hide Here, FourHex, Utf8, Hex4, DecodeUtf8;
    assert |t1| == 4 by { FourHexLength(t1, HighSurrogate(v)); }
    HereSplit3(s, i, ['u'], t1, ['\\', 'u'] + t2);
    HereSplit(s, i + 5, ['\\', 'u'], t2);
    HereAt(s, i, ['u'], 0);
    HereAt(s, i + 5, ['\\', 'u'], 0);
    HereAt(s, i + 5, ['\\', 'u'], 1);
    FourHexReads(s, i + 1, t1, HighSurrogate(v));
    FourHexReads(s, i + 7, t2, LowSurrogate(v));
    Utf8Decodes(v);
    assert (HighSurrogate(v) % 0x400) * 0x400 + LowSurrogate(v) % 0x400 == v - 0x1_0000;
  }

  lemma FourHexLength(t: string, h: nat)
    requires FourHex(t, h)
    ensures |t| == 4
  {
  }

  /** Whatever its digits, a \u escape yields nothing or the UTF-8 form of one scalar value: the
    * parser never writes an ill-formed byte sequence for it. */
  lemma EscapesAreWellFormed(s: string, i: nat)
    ensures var t := UnicodeAt(s, i).0; t == [] || exists v: nat :: Scalar(v) && t == Utf8(v) && DecodeUtf8(t) == Some(v)
  {
    hide Utf8, Hex4, DecodeUtf8;
    var uc, uc2 := Hex4(s, i + 1), Hex4(s, i + 7);
    var pair := 0x1_0000 + (uc % 0x400) * 0x400 + uc2 % 0x400;
    assert Scalar(pair);
    Utf8Decodes(pair);
    if Scalar(uc) { Utf8Decodes(uc); }
  }

  /** What yields nothing: 0, a low half without a high one, and a high half without a low one, which is
    * taken with it if it is an escape. */
  lemma DroppedEscapes(s: string, i: nat, t: string, h: nat)
    requires FourHex(t, h) && Here(s, i, ['u'] + t)
    ensures h == 0 || 0xDC00 <= h <= 0xDFFF ==> EscapeAt(s, i) == ([], i + 5)
    ensures 0xD800 <= h <= 0xDBFF && !(At(s, i + 5) == '\\' && At(s, i + 6) == 'u') ==> EscapeAt(s, i) == ([], i + 5)
    ensures 0xD800 <= h <= 0xDBFF && At(s, i + 5) == '\\' && At(s, i + 6) == 'u' && !(0xDC00 <= Hex4(s, i + 7) <= 0xDFFF) ==>
              EscapeAt(s, i) == ([], i + 11)
  {
    hide Here, FourHex, Utf8, Hex4;
    HereSplit(s, i, ['u'], t);
    HereAt(s, i, ['u'], 0);
    FourHexReads(s, i + 1, t, h);
  }

  // ---------- whole literals ----------

  /** The bytes a first byte announces; 0 if no sequence starts with it. */
  function SequenceLength(c: char): nat {
    if ByteIn(c, 0x00, 0x7F) then 1 else if ByteIn(c, 0xC2, 0xDF) then 2
    else if ByteIn(c, 0xE0, 0xEF) then 3 else if ByteIn(c, 0xF0, 0xF4) then 4 else 0
  }

  /** The scalar values of a well-formed text. */
  function DecodeText(t: string): Option<seq<nat>> {
    if t == [] then Some([])
    else
      var n := SequenceLength(t[0]);
      if n == 0 || |t| < n then None
      else match (DecodeUtf8(t[..n]), DecodeText(t[n..]))
        case (Some(v), Some(vs)) => Some([v] + vs)
        case _ => None
  }

  predicate Scalars(vs: seq<nat>) {
    forall k :: 0 <= k < |vs| ==> Scalar(vs[k])
  }

  /** The UTF-8 form of a text. */
  function Utf8Text(vs: seq<nat>): string
    requires Scalars(vs)
  {
    if vs == [] then [] else Utf8(vs[0]) + Utf8Text(vs[1..])
  }

  lemma LengthAnnounced(v: nat)
    requires Scalar(v)
    ensures SequenceLength(Utf8(v)[0]) == |Utf8(v)| > 0
  {
  }

  /** A text of scalar values is read back from its UTF-8 form. */
  lemma {:induction false} TextDecodes(vs: seq<nat>)
    requires Scalars(vs)
    ensures DecodeText(Utf8Text(vs)) == Some(vs)
  {
    hide Utf8, DecodeUtf8, SequenceLength;
    if vs != [] {
      var t, rest := Utf8(vs[0]), Utf8Text(vs[1..]);
      LengthAnnounced(vs[0]);
      Utf8Decodes(vs[0]);
      TextDecodes(vs[1..]);
      var u := t + rest;
      assert u[0] == t[0] && u[..|t|] == t && u[|t|..] == rest;
      assert [vs[0]] + vs[1..] == vs;
    }
  }

  /** The letters of the short escapes and what they stand for. */
  function ShortValue(c: char): Option<nat> {
    if c == 'b' then Some(8) else if c == 't' then Some(9) else if c == 'n' then Some(10)
    else if c == 'f' then Some(12) else if c == 'r' then Some(13)
    else if c == '\"' || c == '\\' || c == '/' then Some(c as int) else None
  }

  /** How a literal may spell a scalar value: as it is, with a short escape, with one \u escape, or with
    * a surrogate pair of them. */
  datatype Spelling = Raw | Short(c: char) | Unit(t: string) | Pair(t1: string, t2: string)

  predicate Spells(w: Spelling, v: nat) {
    Scalar(v) &&
    match w
    case Raw => v != '\"' as int && v != '\\' as int
    case Short(c) => ShortValue(c) == Some(v)
    case Unit(t) => v < 0x1_0000 && FourHex(t, v)
    case Pair(t1, t2) => v >= 0x1_0000 && FourHex(t1, HighSurrogate(v)) && FourHex(t2, LowSurrogate(v))
  }

  function Spelled(w: Spelling, v: nat): string
    requires Scalar(v)
  {
    match w
    case Raw => Utf8(v)
    case Short(c) => ['\\', c]
    case Unit(t) => ['\\'] + (['u'] + t)
    case Pair(t1, t2) => ['\\'] + (['u'] + (t1 + (['\\', 'u'] + t2)))
  }

  predicate AllSpell(ws: seq<Spelling>, vs: seq<nat>) {
    |ws| == |vs| && Scalars(vs) && forall k :: 0 <= k < |vs| ==> Spells(ws[k], vs[k])
  }

  /** The characters between the quotation marks. */
  function SpelledText(ws: seq<Spelling>, vs: seq<nat>): string
    requires AllSpell(ws, vs)
  {
    if vs == [] then [] else Spelled(ws[0], vs[0]) + SpelledText(ws[1..], vs[1..])
  }

  lemma BodyPlain(s: string, i: nat)
    requires At(s, i) != '\"' && At(s, i) != '\\' && At(s, i) != NUL
    ensures Body(s, i) == ([At(s, i)] + Body(s, i + 1).0, Body(s, i + 1).1)
  {
  }

  /** A stretch without quotation marks, backslashes and terminators is taken as it is. */
  lemma {:induction false} BodyRaw(s: string, i: nat, t: string)
    requires Here(s, i, t) && forall k :: 0 <= k < |t| ==> t[k] != '\"' && t[k] != '\\' && t[k] != NUL
    ensures Body(s, i) == (t + Body(s, i + |t|).0, Body(s, i + |t|).1)
    decreases |t|
  {
    hide Here, Body;
    if t == [] {
      assert t + Body(s, i).0 == Body(s, i).0;
    } else {
      assert t == [t[0]] + t[1..];
      HereSplit(s, i, [t[0]], t[1..]);
      HereAt(s, i, t, 0);
      BodyPlain(s, i);
      BodyRaw(s, i + 1, t[1..]);
      assert [t[0]] + (t[1..] + Body(s, i + |t|).0) == t + Body(s, i + |t|).0;
    }
  }

  lemma RawBytes(v: nat)
    requires Scalar(v) && v != '\"' as int && v != '\\' as int
    ensures forall k :: 0 <= k < |Utf8(v)| ==> Utf8(v)[k] != '\"' && Utf8(v)[k] != '\\' && Utf8(v)[k] != NUL
  {
  }

  lemma ShortIs(s: string, i: nat, c: char, v: nat)
    requires ShortValue(c) == Some(v) && At(s, i) == c
    ensures EscapeAt(s, i) == (Utf8(v), i + 1)
  {
  }

  lemma SpelledIs(w: Spelling, v: nat)
    requires Spells(w, v)
    ensures w.Raw? ==> Spelled(w, v) == Utf8(v) && v != '\"' as int && v != '\\' as int
    ensures w.Short? ==> Spelled(w, v) == ['\\', w.c] && ShortValue(w.c) == Some(v)
    ensures w.Unit? ==> Spelled(w, v) == ['\\'] + (['u'] + w.t) && |w.t| == 4 && v < 0x1_0000 && FourHex(w.t, v)
    ensures w.Pair? ==> Spelled(w, v) == ['\\'] + (['u'] + (w.t1 + (['\\', 'u'] + w.t2))) && |w.t1| == |w.t2| == 4
    ensures w.Pair? ==> v >= 0x1_0000 && FourHex(w.t1, HighSurrogate(v)) && FourHex(w.t2, LowSurrogate(v))
  {
    hide Utf8, HexNumber, HexValue;
  }

  /** However a scalar value is spelled, its UTF-8 form is added to the value. */
  lemma BodySpelled(s: string, i: nat, w: Spelling, v: nat)
    requires Spells(w, v) && Here(s, i, Spelled(w, v))
    ensures var j := i + |Spelled(w, v)|; Body(s, i) == (Utf8(v) + Body(s, j).0, Body(s, j).1)
  {
    hide Here, Body, Utf8, EscapeAt, FourHex, ShortValue, Spelled;
    SpelledIs(w, v);
    if w.Raw? {
      RawBytes(v);
      BodyRaw(s, i, Utf8(v));
    } else {
      HereAt(s, i, Spelled(w, v), 0);
      BodyEscape(s, i);
      match w
      case Short(c) =>
        HereAt(s, i, Spelled(w, v), 1);
        ShortIs(s, i + 1, c, v);
      case Unit(t) =>
        HereSplit(s, i, ['\\'], ['u'] + t);
        TranscodeUnit(s, i + 1, t, v);
      case Pair(t1, t2) =>
        HereSplit(s, i, ['\\'], ['u'] + (t1 + (['\\', 'u'] + t2)));
        TranscodePair(s, i + 1, t1, t2, v);
    }
  }

  lemma {:induction false} BodySpelledText(s: string, i: nat, ws: seq<Spelling>, vs: seq<nat>)
    requires AllSpell(ws, vs) && Here(s, i, SpelledText(ws, vs)) && At(s, i + |SpelledText(ws, vs)|) == '\"'
    ensures Body(s, i) == (Utf8Text(vs), i + |SpelledText(ws, vs)|)
    decreases |vs|
  {
    hide Here, Utf8, Spelled, Spells, Scalar;
    if vs != [] {
      var a, b := Spelled(ws[0], vs[0]), SpelledText(ws[1..], vs[1..]);
      HereSplit(s, i, a, b);
      BodySpelled(s, i, ws[0], vs[0]);
      BodySpelledText(s, i + |a|, ws[1..], vs[1..]);
    }
  }

  /** A literal that spells any scalar values, each in any of the ways, is read as their UTF-8 form up to
    * the closing quotation mark, and that form decodes to the same scalar values. */
  lemma LiteralDecodes(s: string, i: nat, ws: seq<Spelling>, vs: seq<nat>)
    requires AllSpell(ws, vs) && Here(s, i, ['\"'] + (SpelledText(ws, vs) + ['\"']))
    ensures StringAt(s, i) == Some((Utf8Text(vs), i + |SpelledText(ws, vs)| + 2))
    ensures DecodeText(Utf8Text(vs)) == Some(vs)
  {
    hide Here, Body, Utf8, Spells, SpelledText, Utf8Text, DecodeText;
    var t := SpelledText(ws, vs);
    HereSplit3(s, i, ['\"'], t, ['\"']);
    HereAt(s, i, ['\"'], 0);
    HereAt(s, i + 1 + |t|, ['\"'], 0);
    BodySpelledText(s, i + 1, ws, vs);
    TextDecodes(vs);
  }
}
