/** JSON trees and the text the printer renders for them. A char stands for one byte. */
module JsonText {
  import opened Texts

  datatype Json =
    | Null
    | False
    | True
    | Number(n: real)
    | Str(s: string)
    | Arr(items: seq<Json>)
    | Obj(members: seq<Member>)

  datatype Member = Member(name: string, value: Json)

  const INT_MAX: int := 0x7fff_ffff
  const INT_MIN: int := -0x8000_0000

  /** The strings a NUL-terminated buffer can hold. */
  predicate NulFree(s: string) {
    NUL !in s
  }

  /** A NUL-terminated text in a buffer. */
  ghost predicate Holds(buf: seq<char>, s: string) {
    |s| < |buf| && buf[..|s|] == s && buf[|s|] == NUL && NulFree(s)
  }

  predicate IsInt32(r: real) {
    r == r.Floor as real && INT_MIN <= r.Floor <= INT_MAX
  }

  /** Trees of null, booleans, 32-bit integers, NUL-free strings, arrays and objects. */
  predicate Printable(j: Json) {
    match j
    case Null => true
    case False => true
    case True => true
    case Number(n) => IsInt32(n)
    case Str(s) => NulFree(s)
    case Arr(items) => forall x :: x in items ==> Printable(x)
    case Obj(members) => forall m: Member :: m in members ==> NulFree(m.name) && Printable(m.value)
  }

  // ---------- numbers ----------

  function DigitChar(d: nat): (c: char)
    requires d < 10
    ensures '0' <= c <= '9' && c as int == '0' as int + d
  {
    ('0' as int + d) as char
  }

  function Decimal(n: nat): (t: string)
    ensures t != [] && forall c :: c in t ==> '0' <= c <= '9'
    ensures n > 0 ==> t[0] != '0'
    ensures n == 0 ==> t == "0"
  {
    if n < 10 then [DigitChar(n)] else Decimal(n / 10) + [DigitChar(n % 10)]
  }

  /** What %d prints. */
  function IntText(n: int): string {
    if n < 0 then "-" + Decimal(-n) else Decimal(n)
  }

  // ---------- strings ----------

  function HexDigit(d: nat): (c: char)
    requires d < 16
  {
    if d < 10 then DigitChar(d) else ('a' as int + (d - 10)) as char
  }

  /** What u%04x prints for a control character. */
  function ControlEscape(c: char): string
    requires c < 32 as char
  {
    var n := c as int;
    ['u', '0', '0', HexDigit(n / 16), HexDigit(n % 16)]
  }

  function EscapeChar(c: char): (t: string)
    ensures t != []
  {
    if c > 31 as char && c != '\"' && c != '\\' then [c] else ['\\'] + ShortEscape(c)
  }

  function ShortEscape(c: char): (t: string)
    requires c <= 31 as char || c == '\"' || c == '\\'
    ensures t != []
  {
    if c == '\\' then "\\"
    else if c == '\"' then "\""
    else if c == 8 as char then "b"
    else if c == 12 as char then "f"
    else if c == '\n' then "n"
    else if c == '\r' then "r"
    else if c == '\t' then "t"
    else ControlEscape(c)
  }

  function Escape(s: string): string {
    if s == [] then [] else EscapeChar(s[0]) + Escape(s[1..])
  }

  function Quote(s: string): string {
    ['\"'] + Escape(s) + ['\"']
  }

  // ---------- trees ----------

  function Tabs(n: int): (t: string)
    ensures |t| == if n < 0 then 0 else n
    ensures forall c :: c in t ==> c == '\t'
  {
    if n <= 0 then [] else ['\t'] + Tabs(n - 1)
  }

  /** Text that appears in formatted output only. */
  function When(fmt: bool, t: string): string {
    if fmt then t else []
  }

  function Text(j: Json, depth: nat, fmt: bool): string
    requires Printable(j)
    decreases j, 1
  {
    match j
    case Null => "null"
    case False => "false"
    case True => "true"
    case Number(n) => IntText(n.Floor)
    case Str(s) => Quote(s)
    case Arr(items) => if items == [] then "[]" else ['['] + (ItemsText(items, depth + 1, fmt) + [']'])
    case Obj(members) =>
      if members == [] then ['{'] + (When(fmt, ['\n'] + Tabs(depth - 1)) + ['}'])
      else ['{'] + (When(fmt, "\n") + (MembersText(members, depth + 1, fmt) + (When(fmt, Tabs(depth)) + ['}'])))
  }

  function ItemsText(items: seq<Json>, depth: nat, fmt: bool): string
    requires forall x :: x in items ==> Printable(x)
    decreases items, 0
  {
    if items == [] then []
    else if |items| == 1 then Text(items[0], depth, fmt)
    else Text(items[0], depth, fmt) + ([','] + (When(fmt, " ") + ItemsText(items[1..], depth, fmt)))
  }

  function MembersText(members: seq<Member>, depth: nat, fmt: bool): string
    requires forall m: Member :: m in members ==> NulFree(m.name) && Printable(m.value)
    decreases members, 0
  {
    if members == [] then []
    else
      When(fmt, Tabs(depth)) + (Quote(members[0].name) + ([':'] + (When(fmt, "\t") +
      (Text(members[0].value, depth, fmt) + (Comma(|members| > 1) + (When(fmt, "\n") +
      MembersText(members[1..], depth, fmt)))))))
  }

  function Comma(more: bool): string {
    if more then [','] else []
  }

  lemma CommaIs(more: bool)
    ensures Comma(more) == if more then [','] else []
  {
  }

  // ---------- what is printed, spelled out ----------

  /** How each character of a string is printed. */
  lemma CharacterPrinted(c: char)
    requires c != NUL
    ensures c == '\"' ==> EscapeChar(c) == "\\\""
    ensures c == '\\' ==> EscapeChar(c) == "\\\\"
    ensures c as int == 8 ==> EscapeChar(c) == "\\b"
    ensures c as int == 9 ==> EscapeChar(c) == "\\t"
    ensures c as int == 10 ==> EscapeChar(c) == "\\n"
    ensures c as int == 12 ==> EscapeChar(c) == "\\f"
    ensures c as int == 13 ==> EscapeChar(c) == "\\r"
    ensures c as int < 32 && c as int !in {8, 9, 10, 12, 13} ==>
              EscapeChar(c) == ['\\', 'u', '0', '0', if c as int < 16 then '0' else '1', "0123456789abcdef"[c as int % 16]]
    ensures c as int >= 32 && c != '\"' && c != '\\' ==> EscapeChar(c) == [c]
  {
  }

  function Sample(): (j: Json)
    ensures Printable(j)
  {
    Obj([Member("a", Arr([Number(1.0), Str("x")])), Member("b", Obj([])), Member("c", Obj([Member("d", Null)]))])
  }

  lemma QuoteLetter(c: char)
    requires c as int >= 32 && c != '\"' && c != '\\'
    ensures Quote([c]) == ['\"', c, '\"']
  {
    assert [c][1..] == [];
    assert Escape([c]) == [c];
  }

  lemma SampleArray(depth: nat, fmt: bool)
    ensures Printable(Arr([Number(1.0), Str("x")]))
    ensures Text(Arr([Number(1.0), Str("x")]), depth, fmt) == if fmt then "[1, \"x\"]" else "[1,\"x\"]"
  {
    QuoteLetter('x');
    var items := [Number(1.0), Str("x")];
    assert Text(items[0], depth + 1, fmt) == "1";
    assert Text(items[1], depth + 1, fmt) == "\"x\"";
    assert items[1..] == [items[1]];
    assert ItemsText(items[1..], depth + 1, fmt) == "\"x\"";
    assert ItemsText(items, depth + 1, fmt) == if fmt then "1, \"x\"" else "1,\"x\"";
  }

  lemma ObjectText(members: seq<Member>, depth: nat, fmt: bool)
    requires members != [] && Printable(Obj(members))
    ensures forall k: Member :: k in members ==> NulFree(k.name) && Printable(k.value)
    ensures Text(Obj(members), depth, fmt) ==
            if fmt then "{\n" + MembersText(members, depth + 1, fmt) + Tabs(depth) + "}"
            else "{" + MembersText(members, depth + 1, fmt) + "}"
  {
    hide MembersText, Tabs;
  }

  function SampleInner(fmt: bool): string {
    if fmt then "{\n" + ("\t\t" + "\"d\"" + ":\t" + "null" + "\n") + "\t" + "}" else "{" + ("\"d\"" + ":" + "null") + "}"
  }

  lemma SampleObject(fmt: bool)
    ensures Printable(Obj([Member("d", Null)]))
    ensures Text(Obj([Member("d", Null)]), 1, fmt) == SampleInner(fmt)
  {
    hide MembersText, Quote;
    QuoteLetter('d');
    var m := Member("d", Null);
    TwoTabs();
    assert Printable(Obj([m]));
    ObjectText([m], 1, fmt);
    LastMember(m, 2, fmt);
    NullText(2, fmt);
  }

  lemma NullText(depth: nat, fmt: bool)
    ensures Text(Null, depth, fmt) == "null"
  {
  }

  lemma EmptyText(fmt: bool)
    ensures Text(Obj([]), 1, fmt) == if fmt then "{\n}" else "{}"
  {
  }

  lemma TwoTabs()
    ensures Tabs(0) == "" && Tabs(1) == "\t" && Tabs(2) == "\t\t"
  {
  }

  function SampleFormatted(): string {
    "{\n" + ("\t" + "\"a\"" + ":\t" + "[1, \"x\"]" + ",\n" + ("\t" + "\"b\"" + ":\t" + "{\n}" + ",\n" +
    ("\t" + "\"c\"" + ":\t" + ("{\n" + ("\t\t" + "\"d\"" + ":\t" + "null" + "\n") + "\t" + "}") + "\n"))) + "" + "}"
  }

  function SampleCompact(): string {
    "{" + ("\"a\"" + ":" + "[1,\"x\"]" + "," + ("\"b\"" + ":" + "{}" + "," +
    ("\"c\"" + ":" + ("{" + ("\"d\"" + ":" + "null") + "}")))) + "}"
  }

  /** One tree in both formats. */
  lemma SamplePrinted(fmt: bool)
    ensures Text(Sample(), 0, fmt) == if fmt then SampleFormatted() else SampleCompact()
  {
    hide Text, MembersText, Quote, Tabs, Printable, NulFree;
    QuoteLetter('a');
    QuoteLetter('b');
    QuoteLetter('c');
    TwoTabs();
    SampleArray(1, fmt);
    SampleObject(fmt);
    EmptyText(fmt);
    var a, b, c := Member("a", Arr([Number(1.0), Str("x")])), Member("b", Obj([])), Member("c", Obj([Member("d", Null)]));
    assert Sample() == Obj([a, b, c]);
    assert [a] + [b, c] == [a, b, c] && [b] + [c] == [b, c];
    ObjectText([a, b, c], 0, fmt);
    LastMember(c, 1, fmt);
    NextMember(b, [c], fmt);
    NextMember(a, [b, c], fmt);
  }

  lemma LastMember(m: Member, depth: nat, fmt: bool)
    requires NulFree(m.name) && Printable(m.value)
    ensures MembersText([m], depth, fmt) ==
            if fmt then Tabs(depth) + Quote(m.name) + ":\t" + Text(m.value, depth, fmt) + "\n"
            else Quote(m.name) + ":" + Text(m.value, depth, fmt)
  {
    hide Quote, Text, Printable, Tabs;
    assert [m][1..] == [];
  }

  lemma NextMember(m: Member, rest: seq<Member>, fmt: bool)
    requires NulFree(m.name) && Printable(m.value) && rest != []
    requires forall k: Member :: k in rest ==> NulFree(k.name) && Printable(k.value)
    ensures MembersText([m] + rest, 1, fmt) ==
            if fmt then Tabs(1) + Quote(m.name) + ":\t" + Text(m.value, 1, fmt) + ",\n" + MembersText(rest, 1, fmt)
            else Quote(m.name) + ":" + Text(m.value, 1, fmt) + "," + MembersText(rest, 1, fmt)
  {
    hide Quote, Text, Printable, Tabs;
    assert ([m] + rest)[1..] == rest;
  }
}
