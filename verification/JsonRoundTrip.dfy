/** Parsing what the printer renders, formatted or not, gives back the same tree. */
module JsonRoundTrip {
  import opened Options
  import opened JsonText
  import opened JsonParse
  import opened Texts

  lemma HereSplit(s: string, i: nat, a: string, b: string)
    requires Here(s, i, a + b)
    ensures Here(s, i, a) && Here(s, i + |a|, b)
  {
    assert s[i..i + |a|] == s[i..i + |a + b|][..|a|];
    assert s[i + |a|..i + |a| + |b|] == s[i..i + |a + b|][|a|..];
  }

  lemma HereSplit3(s: string, i: nat, a: string, b: string, c: string)
    requires Here(s, i, a + (b + c))
    ensures Here(s, i, a) && Here(s, i + |a|, b) && Here(s, i + |a| + |b|, c)
    ensures |a + (b + c)| == |a| + |b| + |c|
  {
    hide Here;
    HereSplit(s, i, a, b + c);
    HereSplit(s, i + |a|, b, c);
  }

  lemma HereSplit5(s: string, i: nat, a: string, b: string, c: string, d: string, e: string)
    requires Here(s, i, a + (b + (c + (d + e))))
    ensures Here(s, i, a) && Here(s, i + |a|, b) && Here(s, i + |a| + |b|, c)
    ensures Here(s, i + |a| + |b| + |c|, d) && Here(s, i + |a| + |b| + |c| + |d|, e)
    ensures |a + (b + (c + (d + e)))| == |a| + |b| + |c| + |d| + |e|
  {
    hide Here;
    HereSplit3(s, i, a, b, c + (d + e));
    HereSplit3(s, i + |a| + |b|, c, d, e);
  }

  lemma HereAt(s: string, i: nat, t: string, k: nat)
    requires Here(s, i, t) && k < |t|
    ensures At(s, i + k) == t[k]
  {
    assert s[i..i + |t|][k] == s[i + k];
  }

  // ---------- numbers ----------

  /** The value of a digit run on top of an accumulator, last digit last. */
  function Accumulate(n: real, t: string): real
    requires forall c :: c in t ==> IsDigit(c)
  {
    if t == [] then n else Accumulate(n, t[..|t| - 1]) * 10.0 + DigitValue(t[|t| - 1]) as real
  }

  lemma {:induction false} RunOver(s: string, i: nat, t: string, n: real)
    requires Here(s, i, t) && forall c :: c in t ==> IsDigit(c)
    ensures Run(s, i, n) == Run(s, i + |t|, Accumulate(n, t))
    decreases |t|
  {
    if t != [] {
      var init := t[..|t| - 1];
      assert t == init + [t[|t| - 1]];
      HereSplit(s, i, init, [t[|t| - 1]]);
      RunOver(s, i, init, n);
      HereAt(s, i, t, |t| - 1);
    }
  }

  lemma {:induction false} AccumulateDecimal(n: nat)
    ensures Accumulate(0.0, Decimal(n)) == n as real
  {
    if n >= 10 {
      AccumulateDecimal(n / 10);
      var t := Decimal(n);
      assert t[..|t| - 1] == Decimal(n / 10);
    } else {
      assert Decimal(n)[..0] == [];
    }
  }

  /** A character that cannot continue an integer. */
  predicate EndsNumber(c: char) {
    !IsDigit(c) && c != '.' && c != 'e' && c != 'E'
  }

  lemma Enders(c: char)
    requires c == ',' || c == ']' || c == '}' || c == '\n' || c == NUL
    ensures EndsNumber(c) && (c != NUL && c != '\n' ==> c > 32 as char)
  {
  }

  lemma IntegerText(s: string, i: nat, n: nat)
    requires Here(s, i, Decimal(n)) && EndsNumber(At(s, i + |Decimal(n)|))
    ensures IntegerPart(s, i) == (n as real, i + |Decimal(n)|)
  {
    hide Here, Accumulate;
    HereAt(s, i, Decimal(n), 0);
    if n > 0 {
      RunOver(s, i, Decimal(n), 0.0);
      AccumulateDecimal(n);
      assert Decimal(n)[0] in Decimal(n);
    }
  }

  lemma NumberText(s: string, i: nat, n: int)
    requires Here(s, i, IntText(n)) && EndsNumber(At(s, i + |IntText(n)|))
    ensures NumberAt(s, i) == (n as real, i + |IntText(n)|)
    ensures At(s, i) == '-' || IsDigit(At(s, i))
  {
    hide Here, Decimal, IntegerPart;
    if n < 0 {
      HereSplit(s, i, "-", Decimal(-n));
      HereAt(s, i, "-", 0);
      IntegerText(s, i + 1, -n);
    } else {
      HereAt(s, i, Decimal(n), 0);
      assert Decimal(n)[0] in Decimal(n);
      IntegerText(s, i, n);
    }
  }

  // ---------- strings ----------

  lemma HexDigitValue(d: nat)
    requires d < 16
    ensures HexValue(HexDigit(d)) == Some(d)
  {
  }

  lemma ControlText(s: string, i: nat, c: char)
    requires NUL < c < 32 as char && Here(s, i, ControlEscape(c))
    ensures EscapeAt(s, i) == ([c], i + 5)
  {
    var t := ControlEscape(c);
    HereAt(s, i, t, 0);
    HereAt(s, i, t, 1);
    HereAt(s, i, t, 2);
    HereAt(s, i, t, 3);
    HereAt(s, i, t, 4);
    HexDigitValue(c as int / 16);
    HexDigitValue(c as int % 16);
    assert Hex4(s, i + 1) == c as int;
  }

  lemma ShortEscapeText(s: string, i: nat, c: char)
    requires (NUL < c <= 31 as char || c == '\"' || c == '\\') && Here(s, i, ShortEscape(c))
    ensures EscapeAt(s, i) == ([c], i + |ShortEscape(c)|)
  {
    HereAt(s, i, ShortEscape(c), 0);
    if ShortEscape(c)[0] == 'u' { ControlText(s, i, c); }
  }

  /** The printed form of one character reads back as that character. */
  lemma BodyUnit(s: string, i: nat, c: char)
    requires c != NUL && Here(s, i, EscapeChar(c))
    ensures var j := i + |EscapeChar(c)|; Body(s, i) == ([c] + Body(s, j).0, Body(s, j).1)
  {
    hide Here, ShortEscape, EscapeAt;
    HereAt(s, i, EscapeChar(c), 0);
    if c > 31 as char && c != '\"' && c != '\\' {
    } else {
      HereSplit(s, i, ['\\'], ShortEscape(c));
      ShortEscapeText(s, i + 1, c);
    }
  }

  lemma {:induction false} BodyText(s: string, i: nat, str: string)
    requires NulFree(str) && Here(s, i, Escape(str)) && At(s, i + |Escape(str)|) == '\"'
    ensures Body(s, i) == (str, i + |Escape(str)|)
    decreases |str|
  {
    hide Here, EscapeChar, Body;
    if str == [] {
      BodyEnd(s, i);
    } else {
      HereSplit(s, i, EscapeChar(str[0]), Escape(str[1..]));
      BodyUnit(s, i, str[0]);
      BodyText(s, i + |EscapeChar(str[0])|, str[1..]);
      assert [str[0]] + str[1..] == str;
    }
  }

  lemma BodyEnd(s: string, i: nat)
    requires At(s, i) == '\"'
    ensures Body(s, i) == ([], i)
  {
  }

  lemma StringText(s: string, i: nat, str: string)
    requires NulFree(str) && Here(s, i, Quote(str))
    ensures StringAt(s, i) == Some((str, i + |Quote(str)|)) && At(s, i) == '\"'
  {
    hide Here, Escape, Body;
    assert Quote(str) == ['\"'] + (Escape(str) + ['\"']);
    HereSplit(s, i, ['\"'], Escape(str) + ['\"']);
    HereSplit(s, i + 1, Escape(str), ['\"']);
    HereAt(s, i, ['\"'], 0);
    HereAt(s, i + 1 + |Escape(str)|, ['\"'], 0);
    BodyText(s, i + 1, str);
  }

  // ---------- white space ----------

  predicate Blank(t: string) {
    forall k :: 0 <= k < |t| ==> NUL < t[k] <= 32 as char
  }

  lemma {:induction false} SkipBlank(s: string, i: nat, t: string)
    requires Here(s, i, t) && Blank(t)
    ensures Skip(s, i) == Skip(s, i + |t|)
    decreases |t|
  {
    if t != [] {
      HereAt(s, i, t, 0);
      assert t == [t[0]] + t[1..];
      HereSplit(s, i, [t[0]], t[1..]);
      SkipBlank(s, i + 1, t[1..]);
    }
  }

  lemma {:induction false} SkipTwice(s: string, i: nat)
    ensures Skip(s, Skip(s, i)) == Skip(s, i)
    decreases |s| - i
  {
    if i < |s| && s[i] != NUL && s[i] <= 32 as char { SkipTwice(s, i + 1); }
  }

  lemma SkipNone(s: string, i: nat)
    requires At(s, i) > 32 as char
    ensures Skip(s, i) == i
  {
  }

  lemma SkipItems(s: string, i: nat, j: nat)
    requires Skip(s, i) == Skip(s, j)
    ensures ItemsAt(s, i) == ItemsAt(s, j)
  {
    hide Skip, ValueAt, At;
  }

  lemma SkipMembers(s: string, i: nat, j: nat)
    requires Skip(s, i) == Skip(s, j)
    ensures MembersAt(s, i) == MembersAt(s, j)
  {
    hide Skip, ValueAt, StringAt, At;
  }

  // ---------- values ----------

  /** A rendered value starts with a visible character that tells what it is. */
  lemma TextStart(j: Json, depth: nat, fmt: bool)
    requires Printable(j)
    ensures var t := Text(j, depth, fmt);
            t != [] && t[0] > 32 as char && t[0] != ']' && (t[0] == 'n' <==> j.Null?) && (t[0] == 'f' <==> j.False?)
            && (t[0] == 't' <==> j.True?) && (t[0] == '\"' <==> j.Str?) && (t[0] == '[' <==> j.Arr?)
            && (t[0] == '{' <==> j.Obj?) && ((t[0] == '-' || IsDigit(t[0])) <==> j.Number?)
  {
    if j.Number? {
      var t := IntText(j.n.Floor);
      if j.n.Floor >= 0 { assert t[0] in t; }
    }
  }

  lemma TextVisible(j: Json, depth: nat, fmt: bool)
    requires Printable(j)
    ensures var t := Text(j, depth, fmt); t != [] && t[0] > 32 as char && t[0] != ']'
  {
    hide Text;
    TextStart(j, depth, fmt);
  }

  lemma NoLiteral(s: string, i: nat)
    ensures At(s, i) != 'n' ==> !Here(s, i, "null")
    ensures At(s, i) != 'f' ==> !Here(s, i, "false")
    ensures At(s, i) != 't' ==> !Here(s, i, "true")
  {
    if Here(s, i, "null") { HereAt(s, i, "null", 0); }
    if Here(s, i, "false") { HereAt(s, i, "false", 0); }
    if Here(s, i, "true") { HereAt(s, i, "true", 0); }
  }

  /** The printer's text of a tree, wherever it stands, reads back as that tree and is consumed
    * exactly, provided that what follows cannot continue a number. */
  lemma {:induction false} ValueText(s: string, i: nat, j: Json, depth: nat, fmt: bool)
    requires Printable(j) && Here(s, i, Text(j, depth, fmt))
    requires EndsNumber(At(s, i + |Text(j, depth, fmt)|))
    ensures ValueAt(s, i) == Some((j, i + |Text(j, depth, fmt)|))
    decreases j, 1
  {
    hide *;
    TextStart(j, depth, fmt);
    HereAt(s, i, Text(j, depth, fmt), 0);
    match j
    case Arr(items) => ArrayText(s, i, items, depth, fmt);
    case Obj(members) => ObjectText(s, i, members, depth, fmt);
    case Str(str) => StringValueText(s, i, str, depth, fmt);
    case Number(n) => NumberValueText(s, i, n, depth, fmt);
    case _ => LiteralText(s, i, j, depth, fmt);
  }

  lemma LiteralText(s: string, i: nat, j: Json, depth: nat, fmt: bool)
    requires (j.Null? || j.False? || j.True?) && Here(s, i, Text(j, depth, fmt))
    ensures ValueAt(s, i) == Some((j, i + |Text(j, depth, fmt)|))
  {
    hide Here, Skip, ItemsAt, MembersAt, StringAt, NumberAt;
    HereAt(s, i, Text(j, depth, fmt), 0);
    NoLiteral(s, i);
  }

  lemma StringValueText(s: string, i: nat, str: string, depth: nat, fmt: bool)
    requires Printable(Str(str)) && Here(s, i, Text(Str(str), depth, fmt))
    ensures ValueAt(s, i) == Some((Str(str), i + |Text(Str(str), depth, fmt)|))
  {
    hide Here, Skip, ItemsAt, MembersAt, StringAt, NumberAt, Quote;
    NoLiteral(s, i);
    StringText(s, i, str);
  }

  lemma NumberValueText(s: string, i: nat, n: real, depth: nat, fmt: bool)
    requires Printable(Number(n)) && Here(s, i, Text(Number(n), depth, fmt))
    requires EndsNumber(At(s, i + |Text(Number(n), depth, fmt)|))
    ensures ValueAt(s, i) == Some((Number(n), i + |Text(Number(n), depth, fmt)|))
  {
    hide Here, Skip, ItemsAt, MembersAt, StringAt, NumberAt, IntText;
    NoLiteral(s, i);
    NumberText(s, i, n.Floor);
  }

  lemma {:induction false} ArrayText(s: string, i: nat, items: seq<Json>, depth: nat, fmt: bool)
    requires Printable(Arr(items)) && Here(s, i, Text(Arr(items), depth, fmt))
    ensures At(s, i) == '[' ==> ValueAt(s, i) == Some((Arr(items), i + |Text(Arr(items), depth, fmt)|))
    decreases items, 2
  {
    hide Here, Skip, ItemsAt, MembersAt, StringAt, NumberAt, ItemsText;
    NoLiteral(s, i);
    if items == [] {
      HereAt(s, i, "[]", 1);
      SkipNone(s, i + 1);
    } else {
      var t := ItemsText(items, depth + 1, fmt);
      HereSplit(s, i, ['['], t + [']']);
      HereSplit(s, i + 1, t, [']']);
      HereAt(s, i + 1 + |t|, [']'], 0);
      ItemsTextStart(items, depth + 1, fmt);
      HereAt(s, i + 1, t, 0);
      SkipNone(s, i + 1);
      ItemsParse(s, i + 1, items, depth + 1, fmt);
    }
  }

  lemma ItemsTextStart(items: seq<Json>, depth: nat, fmt: bool)
    requires items != [] && forall x :: x in items ==> Printable(x)
    ensures var t := ItemsText(items, depth, fmt); t != [] && t[0] > 32 as char && t[0] != ']'
  {
    hide Text;
    TextVisible(items[0], depth, fmt);
  }

  lemma {:induction false} ItemsParse(s: string, i: nat, items: seq<Json>, depth: nat, fmt: bool)
    requires items != [] && forall x :: x in items ==> Printable(x)
    requires Here(s, i, ItemsText(items, depth, fmt)) && At(s, i + |ItemsText(items, depth, fmt)|) == ']'
    ensures ItemsAt(s, i) == Some((items, i + |ItemsText(items, depth, fmt)| + 1))
    decreases items, 1
  {
    hide *;
    ItemsPieces(items, depth, fmt);
    var n, r := i + |Text(items[0], depth, fmt)|, 0;
    TextVisible(items[0], depth, fmt);
    if |items| > 1 { n, r := ItemsSplit(s, i, items, depth, fmt); }
    HereAt(s, i, Text(items[0], depth, fmt), 0);
    SkipNone(s, i);
    SkipNone(s, n);
    Enders(At(s, n));
    ValueText(s, i, items[0], depth, fmt);
    if |items| > 1 {
      SkipItems(s, n + 1, r);
      ItemsParse(s, r, items[1..], depth, fmt);
    }
    ItemStep(s, i, n, items);
  }

  /** The pieces of an array's text: n is what follows its first element, r where the others start. */
  lemma ItemsSplit(s: string, i: nat, items: seq<Json>, depth: nat, fmt: bool) returns (n: nat, r: nat)
    requires |items| > 1 && forall x :: x in items ==> Printable(x)
    requires Here(s, i, ItemsText(items, depth, fmt))
    ensures Here(s, i, Text(items[0], depth, fmt)) && n == i + |Text(items[0], depth, fmt)|
    ensures At(s, n) == ',' && Skip(s, n + 1) == Skip(s, r)
    ensures Here(s, r, ItemsText(items[1..], depth, fmt))
    ensures i + |ItemsText(items, depth, fmt)| == r + |ItemsText(items[1..], depth, fmt)|
  {
    hide *;
    ItemsPieces(items, depth, fmt);
    var t, gap, rest := Text(items[0], depth, fmt), When(fmt, " "), ItemsText(items[1..], depth, fmt);
    BlankGap(fmt);
    HereSplit(s, i, t, [','] + (gap + rest));
    n := i + |t|;
    HereSplit3(s, n, [','], gap, rest);
    r := n + 1 + |gap|;
    HereAt(s, n, [','], 0);
    SkipBlank(s, n + 1, gap);
  }

  lemma ItemsPieces(items: seq<Json>, depth: nat, fmt: bool)
    requires items != [] && forall x :: x in items ==> Printable(x)
    ensures |items| == 1 ==> ItemsText(items, depth, fmt) == Text(items[0], depth, fmt)
    ensures |items| > 1 ==> ItemsText(items, depth, fmt) ==
                            Text(items[0], depth, fmt) + ([','] + (When(fmt, " ") + ItemsText(items[1..], depth, fmt)))
  {
    hide Text, When;
  }

  /** Putting one element in front of those already parsed. */
  lemma ItemStep(s: string, i: nat, e: nat, items: seq<Json>)
    requires items != [] && Skip(s, i) == i && ValueAt(s, i) == Some((items[0], e)) && Skip(s, e) == e
    requires |items| == 1 ==> At(s, e) == ']'
    requires |items| > 1 ==> At(s, e) == ',' && ItemsAt(s, e + 1).Some? && ItemsAt(s, e + 1).value.0 == items[1..]
    ensures ItemsAt(s, i) == Some((items, if |items| == 1 then e + 1 else ItemsAt(s, e + 1).value.1))
  {
    hide Skip, ValueAt;
    if |items| == 1 { assert [items[0]] == items; } else { assert [items[0]] + items[1..] == items; }
  }

  lemma {:induction false} ObjectText(s: string, i: nat, members: seq<Member>, depth: nat, fmt: bool)
    requires Printable(Obj(members)) && Here(s, i, Text(Obj(members), depth, fmt))
    ensures At(s, i) == '{' ==> ValueAt(s, i) == Some((Obj(members), i + |Text(Obj(members), depth, fmt)|))
    decreases members, 3
  {
    hide Here, Skip, ItemsAt, MembersAt, StringAt, NumberAt, MembersText, Text, Printable;
    NoLiteral(s, i);
    if members == [] {
      EmptyObjectText(s, i, depth, fmt);
    } else {
      FullObjectText(s, i, members, depth, fmt);
    }
  }

  lemma EmptyObjectText(s: string, i: nat, depth: nat, fmt: bool)
    requires Here(s, i, Text(Obj([]), depth, fmt))
    ensures Skip(s, i + 1) + 1 == i + |Text(Obj([]), depth, fmt)| && At(s, Skip(s, i + 1)) == '}'
  {
    var gap := When(fmt, ['\n'] + Tabs(depth - 1));
    assert Text(Obj([]), depth, fmt) == ['{'] + (gap + ['}']);
    hide Here, Skip, Text;
    HereSplit(s, i, ['{'], gap + ['}']);
    HereSplit(s, i + 1, gap, ['}']);
    HereAt(s, i + 1 + |gap|, ['}'], 0);
    BlankTabs(depth - 1);
    SkipBlank(s, i + 1, gap);
    SkipNone(s, i + 1 + |gap|);
  }

  lemma {:induction false} FullObjectText(s: string, i: nat, members: seq<Member>, depth: nat, fmt: bool)
    requires members != [] && Printable(Obj(members)) && Here(s, i, Text(Obj(members), depth, fmt))
    ensures At(s, Skip(s, i + 1)) != '}'
    ensures MembersAt(s, Skip(s, i + 1)) == Some((members, i + |Text(Obj(members), depth, fmt)|))
    decreases members, 2
  {
    hide *;
    PrintableMembers(members);
    var k, e := ObjectSplit(s, i, members, depth, fmt);
    var q := MembersStart(s, k, members, depth + 1, fmt);
    SkipTwice(s, k);
    SkipMembers(s, Skip(s, i + 1), k);
    MembersParse(s, k, members, depth + 1, fmt, e);
  }

  lemma PrintableMembers(members: seq<Member>)
    requires Printable(Obj(members))
    ensures forall m: Member :: m in members ==> NulFree(m.name) && Printable(m.value)
  {
  }

  /** The pieces of an object's text: where its members start and where its closing brace is. */
  lemma ObjectSplit(s: string, i: nat, members: seq<Member>, depth: nat, fmt: bool) returns (k: nat, e: nat)
    requires members != [] && Printable(Obj(members)) && Here(s, i, Text(Obj(members), depth, fmt))
    ensures forall m: Member :: m in members ==> NulFree(m.name) && Printable(m.value)
    ensures Here(s, k, MembersText(members, depth + 1, fmt)) && Skip(s, i + 1) == Skip(s, k)
    ensures Skip(s, k + |MembersText(members, depth + 1, fmt)|) == e && At(s, e) == '}'
    ensures !fmt ==> e == k + |MembersText(members, depth + 1, fmt)|
    ensures e + 1 == i + |Text(Obj(members), depth, fmt)|
  {
    hide *;
    PrintableMembers(members);
    var lead, t, gap := When(fmt, "\n"), MembersText(members, depth + 1, fmt), When(fmt, Tabs(depth));
    ObjectPieces(members, depth, fmt);
    BlankWhenTabs(depth, fmt);
    BlankGap(fmt);
    HereSplit5(s, i, ['{'], lead, t, gap, ['}']);
    k := i + 1 + |lead|;
    e := k + |t| + |gap|;
    HereAt(s, e, ['}'], 0);
    SkipBlank(s, k + |t|, gap);
    SkipNone(s, e);
    SkipBlank(s, i + 1, lead);
  }

  lemma ObjectPieces(members: seq<Member>, depth: nat, fmt: bool)
    requires members != [] && Printable(Obj(members))
    requires forall m: Member :: m in members ==> NulFree(m.name) && Printable(m.value)
    ensures Text(Obj(members), depth, fmt) ==
            ['{'] + (When(fmt, "\n") + (MembersText(members, depth + 1, fmt) + (When(fmt, Tabs(depth)) + ['}'])))
  {
    hide MembersText, Tabs;
  }

  lemma QuoteStart(s: string)
    ensures Quote(s) != [] && Quote(s)[0] == '\"'
  {
  }

  lemma BlankTabs(depth: int)
    ensures Blank(Tabs(depth))
  {
    var t := Tabs(depth);
    forall k | 0 <= k < |t| ensures t[k] == '\t' { assert t[k] in t; }
  }

  /** The first visible character of an object's members is a quotation mark. */
  lemma MembersStart(s: string, i: nat, members: seq<Member>, depth: nat, fmt: bool) returns (q: nat)
    requires members != [] && forall m: Member :: m in members ==> NulFree(m.name) && Printable(m.value)
    requires Here(s, i, MembersText(members, depth, fmt))
    ensures Skip(s, i) == q && At(s, q) == '\"' && q == i + |When(fmt, Tabs(depth))|
  {
    hide *;
    MemberPieces(members, depth, fmt);
    var gap, name := When(fmt, Tabs(depth)), Quote(members[0].name);
    var rest := [':'] + (When(fmt, "\t") + (Text(members[0].value, depth, fmt) + (Comma(|members| > 1) +
                (When(fmt, "\n") + MembersText(members[1..], depth, fmt)))));
    HereSplit(s, i, gap, name + rest);
    q := i + |gap|;
    QuoteStart(members[0].name);
    HereAt(s, q, name + rest, 0);
    BlankWhenTabs(depth, fmt);
    SkipBlank(s, i, gap);
    SkipNone(s, q);
  }

  lemma {:induction false} MembersParse(s: string, i: nat, members: seq<Member>, depth: nat, fmt: bool, end: nat)
    requires members != [] && forall m: Member :: m in members ==> NulFree(m.name) && Printable(m.value)
    requires Here(s, i, MembersText(members, depth, fmt))
    requires Skip(s, i + |MembersText(members, depth, fmt)|) == end && At(s, end) == '}'
    requires !fmt ==> end == i + |MembersText(members, depth, fmt)|
    ensures MembersAt(s, i) == Some((members, end + 1))
    decreases members, 1
  {
    hide *;
    var m, line := members[0], When(fmt, "\n");
    var b, c, d := MemberSplit(s, i, members, depth, fmt);
    BlankGap(fmt);
    Enders(At(s, d));
    ValueText(s, c, m.value, depth, fmt);
    if |members| > 1 {
      MembersParse(s, d + 1 + |line|, members[1..], depth, fmt, end);
      SkipMembers(s, d + 1, d + 1 + |line|);
    }
    MemberStep(s, i, Skip(s, i), b, c, d, end, members, Skip(s, d));
  }

  /** The pieces of the text of an object's members, up to the second member: b is the colon, c the
    * value and d what follows it. */
  lemma MemberSplit(s: string, i: nat, members: seq<Member>, depth: nat, fmt: bool) returns (b: nat, c: nat, d: nat)
    requires members != [] && forall m: Member :: m in members ==> NulFree(m.name) && Printable(m.value)
    requires Here(s, i, MembersText(members, depth, fmt))
    ensures StringAt(s, Skip(s, i)) == Some((members[0].name, b)) && Skip(s, b) == b && At(s, b) == ':'
    ensures Skip(s, b + 1) == c && Here(s, c, Text(members[0].value, depth, fmt))
    ensures d == c + |Text(members[0].value, depth, fmt)|
    ensures var end := i + |MembersText(members, depth, fmt)|;
            if |members| == 1 then end == d + |When(fmt, "\n")| && Skip(s, d) == Skip(s, end) && (fmt ==> At(s, d) == '\n')
            else
              && At(s, d) == ',' && Skip(s, d) == d && Skip(s, d + 1) == Skip(s, d + 1 + |When(fmt, "\n")|)
              && Here(s, d + 1 + |When(fmt, "\n")|, MembersText(members[1..], depth, fmt))
              && end == d + 1 + |When(fmt, "\n")| + |MembersText(members[1..], depth, fmt)|
  {
    hide *;
    var m := members[0];
    var gap, name, space, t := When(fmt, Tabs(depth)), Quote(m.name), When(fmt, "\t"), Text(m.value, depth, fmt);
    var after := Comma(|members| > 1) + (When(fmt, "\n") + MembersText(members[1..], depth, fmt));
    MemberPieces(members, depth, fmt);
    BlankGap(fmt);
    HereSplit5(s, i, gap, name, [':'], space, t + after);
    b := i + |gap| + |name|;
    c := b + 1 + |space|;
    HereSplit(s, c, t, after);
    d := c + |t|;
    MemberName(s, i, gap, m.name, b, depth, fmt);
    SkipBlank(s, b + 1, space);
    TextVisible(m.value, depth, fmt);
    HereAt(s, c, t, 0);
    SkipNone(s, c);
    AfterMember(s, d, members, depth, fmt);
  }

  lemma BlankWhenTabs(depth: int, fmt: bool)
    ensures Blank(When(fmt, Tabs(depth))) && (!fmt ==> When(fmt, Tabs(depth)) == [])
  {
    hide Tabs, Blank;
    BlankTabs(depth);
    BlankNone();
  }

  lemma BlankNone()
    ensures Blank([])
  {
  }

  lemma BlankGap(fmt: bool)
    ensures Blank(When(fmt, "\t")) && Blank(When(fmt, "\n")) && Blank(When(fmt, " "))
    ensures |When(fmt, "\n")| == if fmt then 1 else 0
    ensures fmt ==> When(fmt, "\n")[0] == '\n'
  {
  }

  lemma MemberPieces(members: seq<Member>, depth: nat, fmt: bool)
    requires members != [] && forall m: Member :: m in members ==> NulFree(m.name) && Printable(m.value)
    ensures MembersText(members, depth, fmt) ==
            When(fmt, Tabs(depth)) + (Quote(members[0].name) + ([':'] + (When(fmt, "\t") +
            (Text(members[0].value, depth, fmt) + (Comma(|members| > 1) + (When(fmt, "\n") +
            MembersText(members[1..], depth, fmt)))))))
  {
    hide Tabs, Quote, Text, When, Comma;
  }

  lemma NoMembersText(depth: nat, fmt: bool)
    ensures MembersText([], depth, fmt) == []
  {
  }

  /** The name of a member and the colon after it. */
  lemma MemberName(s: string, i: nat, gap: string, name: string, b: nat, depth: nat, fmt: bool)
    requires gap == When(fmt, Tabs(depth)) && Here(s, i, gap) && NulFree(name) && Here(s, i + |gap|, Quote(name))
    requires b == i + |gap| + |Quote(name)| && Here(s, b, [':'])
    ensures Skip(s, i) == i + |gap| && StringAt(s, i + |gap|) == Some((name, b)) && Skip(s, b) == b && At(s, b) == ':'
  {
    hide *;
    BlankWhenTabs(depth, fmt);
    SkipBlank(s, i, gap);
    StringText(s, i + |gap|, name);
    SkipNone(s, i + |gap|);
    HereAt(s, b, [':'], 0);
    SkipNone(s, b);
  }

  /** Putting one member in front of those already parsed. */
  lemma MemberStep(s: string, i: nat, a: nat, b: nat, c: nat, d: nat, end: nat, members: seq<Member>, k: nat)
    requires members != [] && Skip(s, i) == a && StringAt(s, a) == Some((members[0].name, b))
    requires Skip(s, b) == b && At(s, b) == ':' && Skip(s, b + 1) == c
    requires ValueAt(s, c) == Some((members[0].value, d)) && Skip(s, d) == k
    requires |members| == 1 ==> k == end && At(s, end) == '}'
    requires |members| > 1 ==> At(s, k) == ',' && MembersAt(s, k + 1) == Some((members[1..], end + 1))
    ensures MembersAt(s, i) == Some((members, end + 1))
  {
    hide Skip, StringAt, ValueAt;
    if |members| == 1 { assert [members[0]] == members; } else { assert [members[0]] + members[1..] == members; }
  }

  /** What follows the value of a member: a comma and the other members, or blanks only. */
  lemma AfterMember(s: string, d: nat, members: seq<Member>, depth: nat, fmt: bool)
    requires members != [] && forall m: Member :: m in members ==> NulFree(m.name) && Printable(m.value)
    requires Here(s, d, Comma(|members| > 1) + (When(fmt, "\n") + MembersText(members[1..], depth, fmt)))
    ensures var line := When(fmt, "\n");
            if |members| == 1 then
              && Skip(s, d) == Skip(s, d + |line|) && (fmt ==> At(s, d) == '\n')
              && |Comma(|members| > 1) + (When(fmt, "\n") + MembersText(members[1..], depth, fmt))| == |line|
            else
              && At(s, d) == ',' && Skip(s, d) == d && Skip(s, d + 1) == Skip(s, d + 1 + |line|)
              && Here(s, d + 1 + |line|, MembersText(members[1..], depth, fmt))
              && |Comma(|members| > 1) + (When(fmt, "\n") + MembersText(members[1..], depth, fmt))| ==
                 1 + |line| + |MembersText(members[1..], depth, fmt)|
  {
    hide *;
    var comma, line, rest := Comma(|members| > 1), When(fmt, "\n"), MembersText(members[1..], depth, fmt);
    CommaIs(|members| > 1);
    BlankGap(fmt);
    HereSplit3(s, d, comma, line, rest);
    SkipBlank(s, d + |comma|, line);
    if |members| > 1 {
      HereAt(s, d, comma, 0);
      SkipNone(s, d);
    } else {
      assert members[1..] == [];
      NoMembersText(depth, fmt);
      if fmt { HereAt(s, d, line, 0); }
    }
  }

  /** cJSON_Parse inverts cJSON_Print and cJSON_PrintUnformatted on every printable tree, and stops
    * exactly at the end of the text. */
  lemma ParsePrinted(j: Json, fmt: bool)
    requires Printable(j)
    ensures forall requireEnd :: Parse(Text(j, 0, fmt), requireEnd) == Some((j, |Text(j, 0, fmt)|))
  {
    var t := Text(j, 0, fmt);
    hide Text, ValueAt;
    TextStart(j, 0, fmt);
    SkipNone(t, 0);
    ValueText(t, 0, j, 0, fmt);
  }
}
