/** The parser, on a text whose end reads as NUL. Positions stand for the source's pointers. */
module JsonParse {
  import opened Options
  import opened JsonText
  import opened Texts

  function Skip(s: string, i: nat): (j: nat)
    ensures i <= j
    decreases |s| - i
  {
    if i < |s| && s[i] != NUL && s[i] <= 32 as char then Skip(s, i + 1) else i
  }

  predicate IsDigit(c: char) { '0' <= c <= '9' }

  /** Whether the characters of t stand at position i. */
  predicate Here(s: string, i: nat, t: string) {
    i + |t| <= |s| && s[i..i + |t|] == t
  }

  // ---------- numbers ----------

  function DigitValue(c: char): nat
    requires IsDigit(c)
  {
    c as int - '0' as int
  }

  /** Reads a run of digits into an accumulator. */
  function Run(s: string, i: nat, n: real): (r: (real, nat))
    ensures i <= r.1
    decreases |s| - i
  {
    if IsDigit(At(s, i)) then Run(s, i + 1, n * 10.0 + DigitValue(At(s, i)) as real) else (n, i)
  }

  function IntRun(s: string, i: nat, n: nat): (r: (nat, nat))
    ensures i <= r.1
    decreases |s| - i
  {
    if IsDigit(At(s, i)) then IntRun(s, i + 1, n * 10 + DigitValue(At(s, i))) else (n, i)
  }

  function PowerOfTen(k: int): (r: real)
    ensures r > 0.0
    decreases if k < 0 then -k else k
  {
    if k == 0 then 1.0 else if k > 0 then 10.0 * PowerOfTen(k - 1) else PowerOfTen(k + 1) / 10.0
  }

  /** The integer part: an optional zero, then a run that does not start with zero. */
  function IntegerPart(s: string, i: nat): (r: (real, nat))
    ensures i <= r.1
    ensures IsDigit(At(s, i)) ==> i < r.1
  {
    var j := if At(s, i) == '0' then i + 1 else i;
    if '1' <= At(s, j) <= '9' then Run(s, j, 0.0) else (0.0, j)
  }

  function Fraction(s: string, i: nat, n: real): (r: (real, nat))
    ensures i <= r.1
  {
    if At(s, i) == '.' && IsDigit(At(s, i + 1)) then Run(s, i + 1, n) else (n, i)
  }

  /** The value and the end of the exponent. */
  function Exponent(s: string, i: nat): (r: (int, nat))
    ensures i <= r.1
  {
    if At(s, i) == 'e' || At(s, i) == 'E' then
      if At(s, i + 1) == '-' then
        var r := IntRun(s, i + 2, 0);
        (0 - r.0, r.1)
      else IntRun(s, if At(s, i + 1) == '+' then i + 2 else i + 1, 0)
    else (0, i)
  }

  /** parse_number, in exact arithmetic. */
  function NumberAt(s: string, i: nat): (r: (real, nat))
    ensures At(s, i) == '-' || IsDigit(At(s, i)) ==> i < r.1
  {
    var start := if At(s, i) == '-' then i + 1 else i;
    var (n, j) := IntegerPart(s, start);
    var (m, k) := Fraction(s, j, n);
    var scale := if k > j then -(k - (j + 1)) else 0;
    var (x, e) := Exponent(s, k);
    ((if At(s, i) == '-' then -m else m) * PowerOfTen(scale + x), e)
  }

  // ---------- strings ----------

  function HexValue(c: char): Option<nat> {
    if '0' <= c <= '9' then Some(c as int - '0' as int)
    else if 'A' <= c <= 'F' then Some(10 + c as int - 'A' as int)
    else if 'a' <= c <= 'f' then Some(10 + c as int - 'a' as int)
    else None
  }

  /** parse_hex4: the value of four hexadecimal digits, or 0 if one of them is none. */
  function Hex4(s: string, i: nat): (h: nat)
    ensures h < 0x1_0000
  {
    match (HexValue(At(s, i)), HexValue(At(s, i + 1)), HexValue(At(s, i + 2)), HexValue(At(s, i + 3)))
    case (Some(a), Some(b), Some(c), Some(d)) => HexNumber(a, b, c, d)
    case _ => 0
  }

  function HexNumber(a: nat, b: nat, c: nat, d: nat): (h: nat)
    requires a < 16 && b < 16 && c < 16 && d < 16
    ensures h < 0x1_0000
  {
    ((a * 16 + b) * 16 + c) * 16 + d
  }

  /** The UTF-8 bytes of a code point: continuation bytes carry six bits each below the marker 10,
    * and the first byte carries the rest below the marker of its length. */
  function Utf8(uc: nat): (t: string)
    requires 0 < uc < 0x11_0000
    ensures 1 <= |t| <= 4
  {
    if uc < 0x80 then [uc as char]
    else if uc < 0x800 then [(0xC0 + uc / 64) as char, Trail(uc)]
    else if uc < 0x1_0000 then [(0xE0 + uc / 64 / 64) as char, Trail(uc / 64), Trail(uc)]
    else [(0xF0 + uc / 64 / 64 / 64) as char, Trail(uc / 64 / 64), Trail(uc / 64), Trail(uc)]
  }

  function Trail(uc: nat): char {
    (0x80 + uc % 64) as char
  }

  /** What a \u escape with its u at position i stands for, and where reading goes on. */
  function UnicodeAt(s: string, i: nat): (r: (string, nat))
    ensures i < r.1
  {
    var uc := Hex4(s, i + 1);
    if 0xDC00 <= uc <= 0xDFFF || uc == 0 then ([], i + 5)
    else if 0xD800 <= uc <= 0xDBFF then
      if At(s, i + 5) != '\\' || At(s, i + 6) != 'u' then ([], i + 5)
      else
        var uc2 := Hex4(s, i + 7);
        if uc2 < 0xDC00 || uc2 > 0xDFFF then ([], i + 11)
        else (Utf8(0x1_0000 + (uc % 0x400) * 0x400 + uc2 % 0x400), i + 11)
    else (Utf8(uc), i + 5)
  }

  /** What an escape with its letter at position i stands for, and where reading goes on. */
  function EscapeAt(s: string, i: nat): (r: (string, nat))
    ensures i < r.1
  {
    var c := At(s, i);
    if c == 'b' then ([8 as char], i + 1)
    else if c == 'f' then ([12 as char], i + 1)
    else if c == 'n' then (['\n'], i + 1)
    else if c == 'r' then (['\r'], i + 1)
    else if c == 't' then (['\t'], i + 1)
    else if c == 'u' then UnicodeAt(s, i)
    else ([c], i + 1)
  }

  /** The characters of a string literal from position i on, and the position of its end. */
  function Body(s: string, i: nat): (r: (string, nat))
    ensures i <= r.1
    ensures At(s, r.1) == '\"' || At(s, r.1) == NUL
    decreases |s| - i
  {
    if At(s, i) == '\"' || At(s, i) == NUL then ([], i)
    else if At(s, i) != '\\' then
      var (t, e) := Body(s, i + 1);
      ([s[i]] + t, e)
    else
      var (c, j) := EscapeAt(s, i + 1);
      var (t, e) := Body(s, j);
      (c + t, e)
  }

  /** One step of a literal at a backslash. */
  lemma BodyEscape(s: string, i: nat)
    requires At(s, i) == '\\'
    ensures var (c, j) := EscapeAt(s, i + 1); Body(s, i) == (c + Body(s, j).0, Body(s, j).1)
    ensures At(s, i + 1) == 'u' ==> EscapeAt(s, i + 1) == UnicodeAt(s, i + 1)
    ensures At(s, i + 1) != 'u' ==> |EscapeAt(s, i + 1).0| == 1 && EscapeAt(s, i + 1).1 == i + 2
  {
    hide UnicodeAt;
  }

  /** parse_string. */
  function StringAt(s: string, i: nat): (r: Option<(string, nat)>)
    ensures r.Some? ==> i < r.value.1
  {
    if At(s, i) != '\"' then None
    else
      var (t, e) := Body(s, i + 1);
      Some((t, if At(s, e) == '\"' then e + 1 else e))
  }

  // ---------- values ----------

  function Left(s: string, i: nat): nat {
    if i < |s| then |s| - i else 0
  }

  /** parse_value: the tree at position i and where it ends. */
  function ValueAt(s: string, i: nat): (r: Option<(Json, nat)>)
    ensures r.Some? ==> i < r.value.1 && i < |s|
    decreases Left(s, i), 0
  {
    if Here(s, i, "null") then Some((Null, i + 4))
    else if Here(s, i, "false") then Some((False, i + 5))
    else if Here(s, i, "true") then Some((True, i + 4))
    else if At(s, i) == '\"' then
      var (t, e) := StringAt(s, i).value;
      Some((Str(t), e))
    else if At(s, i) == '-' || IsDigit(At(s, i)) then
      var (n, e) := NumberAt(s, i);
      Some((Number(n), e))
    else if At(s, i) == '[' then
      var j := Skip(s, i + 1);
      if At(s, j) == ']' then Some((Arr([]), j + 1))
      else match ItemsAt(s, j)
        case Some((items, e)) => Some((Arr(items), e))
        case None => None
    else if At(s, i) == '{' then
      var j := Skip(s, i + 1);
      if At(s, j) == '}' then Some((Obj([]), j + 1))
      else match MembersAt(s, j)
        case Some((members, e)) => Some((Obj(members), e))
        case None => None
    else None
  }

  /** The elements of an array from position i on, up to and including its closing bracket. */
  function ItemsAt(s: string, i: nat): (r: Option<(seq<Json>, nat)>)
    ensures r.Some? ==> i < r.value.1
    decreases Left(s, i), 1
  {
    match ValueAt(s, Skip(s, i))
    case None => None
    case Some((x, e)) =>
      var j := Skip(s, e);
      if At(s, j) == ',' then
        match ItemsAt(s, j + 1)
        case None => None
        case Some((rest, end)) => Some(([x] + rest, end))
      else if At(s, j) == ']' then Some(([x], j + 1))
      else None
  }

  /** The members of an object from position i on, up to and including its closing brace. */
  function MembersAt(s: string, i: nat): (r: Option<(seq<Member>, nat)>)
    ensures r.Some? ==> i < r.value.1
    decreases Left(s, i), 2
  {
    match StringAt(s, Skip(s, i))
    case None => None
    case Some((name, e)) =>
      var j := Skip(s, e);
      if At(s, j) != ':' then None
      else match ValueAt(s, Skip(s, j + 1))
        case None => None
        case Some((x, f)) =>
          var k := Skip(s, f);
          if At(s, k) == ',' then
            match MembersAt(s, k + 1)
            case None => None
            case Some((rest, end)) => Some(([Member(name, x)] + rest, end))
          else if At(s, k) == '}' then Some(([Member(name, x)], k + 1))
          else None
  }

  /** cJSON_ParseWithOpts: the tree and where parsing stopped. */
  function Parse(s: string, requireEnd: bool): Option<(Json, nat)> {
    match ValueAt(s, Skip(s, 0))
    case None => None
    case Some((j, e)) =>
      if requireEnd then
        var end := Skip(s, e);
        if At(s, end) != NUL then None else Some((j, end))
      else Some((j, e))
  }
}
