/** What the service does with a reply: print it formatted, then minify the buffer in place. */
module JsonService {
  import opened Options
  import opened JsonText
  import opened JsonParse
  import opened JsonRoundTrip
  import opened JsonMinify
  import opened JsonBuffers
  import opened JsonNodes
  import opened JsonPrinter
  import opened JsonReader
  import opened Texts

  // ---------- printed text is well escaped ----------

  /** Well escaped from its start and from every quotation mark on. */
  ghost predicate Sound(s: string) {
    Escaped(s) && WellEscaped(s, 0)
  }

  /** In front of any sound text, s leaves it sound. */
  ghost predicate Keeps(s: string) {
    forall rest: string :: Sound(rest) ==> Sound(s + rest)
  }

  lemma {:induction false} Shifted(a: string, b: string, i: nat)
    ensures WellEscaped(a + b, |a| + i) == WellEscaped(b, i)
    decreases |b| - i
  {
    hide HexAt;
    assert forall k: nat :: At(a + b, |a| + k) == At(b, k);
    if At(b, i) == '\"' || At(b, i) == NUL {
    } else if At(b, i) != '\\' {
      Shifted(a, b, i + 1);
    } else {
      Shifted(a, b, i + 2);
      Shifted(a, b, i + 6);
      HexShifted(a, b, i + 2);
    }
  }

  lemma HexShifted(a: string, b: string, i: nat)
    ensures HexAt(a + b, |a| + i) == HexAt(b, i)
  {
    hide IsHex;
  }

  lemma EscapedAfter(a: string, rest: string)
    requires Escaped(rest)
    requires forall i :: 0 <= i < |a| && a[i] == '\"' ==> WellEscaped(a + rest, i + 1)
    ensures Escaped(a + rest)
  {
    hide WellEscaped;
    var s := a + rest;
    forall i | 0 <= i < |s| && s[i] == '\"' ensures WellEscaped(s, i + 1) {
      if i >= |a| {
        assert rest[i - |a|] == '\"';
        Shifted(a, rest, i - |a| + 1);
      }
    }
  }

  lemma KeepsMark(c: char)
    requires c != '\\' && c != NUL
    ensures Keeps([c])
  {
    forall rest: string | Sound(rest) ensures Sound([c] + rest) {
      Shifted([c], rest, 0);
      EscapedAfter([c], rest);
    }
  }

  lemma KeepsPair(c: char)
    requires c != 'u' && c != NUL
    ensures Keeps(['\\', c])
  {
    forall rest: string | Sound(rest) ensures Sound(['\\', c] + rest) {
      Shifted(['\\', c], rest, 0);
      EscapedAfter(['\\', c], rest);
    }
  }

  lemma KeepsControl(c: char)
    requires c < 32 as char
    ensures Keeps(['\\'] + ControlEscape(c))
  {
    var e := ['\\'] + ControlEscape(c);
    forall rest: string | Sound(rest) ensures Sound(e + rest) {
      Shifted(e, rest, 0);
      ControlHex(c, rest);
      EscapedAfter(e, rest);
    }
  }

  lemma ControlHex(c: char, rest: string)
    requires c < 32 as char
    ensures var s := ['\\'] + ControlEscape(c) + rest;
      HexAt(s, 2) && At(s, 0) == '\\' && At(s, 1) == 'u' && forall i :: 0 <= i < 6 ==> s[i] != '\"'
  {
  }

  lemma KeepsNone()
    ensures Keeps([])
  {
    hide Sound;
    forall rest: string | Sound(rest) ensures Sound([] + rest) {
      assert [] + rest == rest;
    }
  }

  lemma KeepsBoth(a: string, b: string)
    requires Keeps(a) && Keeps(b)
    ensures Keeps(a + b)
  {
    hide Sound;
    forall rest: string | Sound(rest) ensures Sound(a + b + rest) {
      assert a + b + rest == a + (b + rest);
    }
  }

  lemma {:induction false} KeepsPlain(t: string)
    requires forall c :: c in t ==> c != '\\' && c != NUL
    ensures Keeps(t)
  {
    hide Keeps;
    if t == [] {
      KeepsNone();
    } else {
      assert t[0] in t && forall c :: c in t[1..] ==> c in t;
      KeepsMark(t[0]);
      KeepsPlain(t[1..]);
      KeepsBoth([t[0]], t[1..]);
      assert [t[0]] + t[1..] == t;
    }
  }

  lemma KeepsChar(c: char)
    requires c != NUL
    ensures Keeps(EscapeChar(c))
  {
    hide Keeps, EscapeChar, ShortEscape, ControlEscape;
    ShortForms(c);
    ShortIs(c);
    if c > 31 as char && c != '\"' && c != '\\' {
      KeepsMark(c);
    } else if Cost(c) == 6 {
      KeepsControl(c);
    } else {
      KeepsPair(ShortEscape(c)[0]);
      assert ['\\'] + ShortEscape(c) == ['\\', ShortEscape(c)[0]];
    }
  }

  lemma {:induction false} KeepsEscape(s: string)
    requires NulFree(s)
    ensures Keeps(Escape(s))
  {
    hide Keeps, EscapeChar;
    if s == [] {
      KeepsNone();
    } else {
      KeepsChar(s[0]);
      KeepsEscape(s[1..]);
      KeepsBoth(EscapeChar(s[0]), Escape(s[1..]));
    }
  }

  lemma KeepsQuote(s: string)
    requires NulFree(s)
    ensures Keeps(Quote(s))
  {
    hide Keeps, Escape;
    KeepsMark('\"');
    KeepsEscape(s);
    KeepsBoth(['\"'], Escape(s));
    KeepsBoth(['\"'] + Escape(s), ['\"']);
  }

  lemma KeepsDigits(n: int)
    ensures Keeps(IntText(n))
  {
    hide Keeps, Decimal;
    KeepsPlain(IntText(n));
  }

  lemma KeepsTabs(n: int, fmt: bool)
    ensures Keeps(Tabs(n)) && Keeps(When(fmt, Tabs(n))) && Keeps(When(fmt, ['\n'] + Tabs(n)))
  {
    hide Keeps, Tabs;
    KeepsNone();
    KeepsPlain(Tabs(n));
    KeepsPlain(['\n'] + Tabs(n));
  }

  lemma KeepsMarks(fmt: bool, more: bool)
    ensures Keeps(['[']) && Keeps([']']) && Keeps(['{']) && Keeps(['}']) && Keeps([',']) && Keeps([':'])
    ensures Keeps(When(fmt, "\n")) && Keeps(When(fmt, "\t")) && Keeps(When(fmt, " ")) && Keeps(Comma(more))
  {
    hide Keeps;
    KeepsNone();
    KeepsMark('[');
    KeepsMark(']');
    KeepsMark('{');
    KeepsMark('}');
    KeepsMark(',');
    KeepsMark(':');
    KeepsMark('\n');
    KeepsMark('\t');
    KeepsMark(' ');
  }

  lemma {:induction false} KeepsTree(j: Json, depth: nat, fmt: bool)
    requires Printable(j)
    ensures Keeps(Text(j, depth, fmt))
    decreases j, 1
  {
    hide Keeps, IntText, Quote, ItemsText, MembersText, Tabs, When;
    KeepsMarks(fmt, false);
    match j
    case Null => KeepsPlain("null");
    case False => KeepsPlain("false");
    case True => KeepsPlain("true");
    case Number(n) => KeepsDigits(n.Floor);
    case Str(s) => KeepsQuote(s);
    case Arr(items) =>
      if items == [] {
        KeepsPlain("[]");
      } else {
        KeepsItems(items, depth + 1, fmt);
        KeepsBoth(ItemsText(items, depth + 1, fmt), [']']);
        KeepsBoth(['['], ItemsText(items, depth + 1, fmt) + [']']);
      }
    case Obj(members) => KeepsObject(members, depth, fmt);
  }

  lemma {:induction false} KeepsObject(members: seq<Member>, depth: nat, fmt: bool)
    requires Printable(Obj(members))
    ensures Keeps(Text(Obj(members), depth, fmt))
    decreases members, 2
  {
    hide Keeps, MembersText, Tabs, When;
    KeepsMarks(fmt, false);
    if members == [] {
      KeepsTabs(depth - 1, fmt);
      KeepsBoth(When(fmt, ['\n'] + Tabs(depth - 1)), ['}']);
      KeepsBoth(['{'], When(fmt, ['\n'] + Tabs(depth - 1)) + ['}']);
    } else {
      KeepsTabs(depth, fmt);
      KeepsMembers(members, depth + 1, fmt);
      var m := MembersText(members, depth + 1, fmt);
      KeepsBoth(When(fmt, Tabs(depth)), ['}']);
      KeepsBoth(m, When(fmt, Tabs(depth)) + ['}']);
      KeepsBoth(When(fmt, "\n"), m + (When(fmt, Tabs(depth)) + ['}']));
      KeepsBoth(['{'], When(fmt, "\n") + (m + (When(fmt, Tabs(depth)) + ['}'])));
    }
  }

  lemma {:induction false} KeepsItems(items: seq<Json>, depth: nat, fmt: bool)
    requires forall x :: x in items ==> Printable(x)
    ensures Keeps(ItemsText(items, depth, fmt))
    decreases items, 0
  {
    hide Keeps, Text, Printable, When;
    if items == [] {
      KeepsNone();
    } else {
      KeepsTree(items[0], depth, fmt);
      if |items| > 1 {
        var rest := ItemsText(items[1..], depth, fmt);
        KeepsItems(items[1..], depth, fmt);
        KeepsMarks(fmt, true);
        KeepsBoth(When(fmt, " "), rest);
        KeepsBoth([','], When(fmt, " ") + rest);
        KeepsBoth(Text(items[0], depth, fmt), [','] + (When(fmt, " ") + rest));
      }
    }
  }

  lemma {:induction false} KeepsMembers(members: seq<Member>, depth: nat, fmt: bool)
    requires forall m: Member :: m in members ==> NulFree(m.name) && Printable(m.value)
    ensures Keeps(MembersText(members, depth, fmt))
    decreases members, 1
  {
    hide Keeps, Text, Printable, When, Quote, Tabs, Comma;
    if members == [] {
      KeepsNone();
    } else {
      var m := members[0];
      KeepsMembers(members[1..], depth, fmt);
      KeepsTree(m.value, depth, fmt);
      KeepsQuote(m.name);
      KeepsMarks(fmt, |members| > 1);
      KeepsTabs(depth, fmt);
      var t := When(fmt, "\n") + MembersText(members[1..], depth, fmt);
      KeepsBoth(When(fmt, "\n"), MembersText(members[1..], depth, fmt));
      KeepsBoth(Comma(|members| > 1), t);
      t := Comma(|members| > 1) + t;
      KeepsBoth(Text(m.value, depth, fmt), t);
      t := Text(m.value, depth, fmt) + t;
      KeepsBoth(When(fmt, "\t"), t);
      t := When(fmt, "\t") + t;
      KeepsBoth([':'], t);
      t := [':'] + t;
      KeepsBoth(Quote(m.name), t);
      t := Quote(m.name) + t;
      KeepsBoth(When(fmt, Tabs(depth)), t);
    }
  }

  /** No literal of printed text has a cut-off escape, so the parser's buffers are enough for it. */
  lemma PrintedIsEscaped(j: Json, fmt: bool)
    requires Printable(j)
    ensures Escaped(Text(j, 0, fmt))
  {
    hide Text;
    KeepsTree(j, 0, fmt);
    SoundEnd();
    assert Text(j, 0, fmt) + [] == Text(j, 0, fmt);
  }

  lemma SoundEnd()
    ensures Sound([])
  {
  }

  // ---------- the reply ----------

  /** Printing formatted and minifying in place leaves the unformatted text in the buffer, and
    * parsing that text gives the tree back. */
  method Reply(root: Node) returns (out: array<char>)
    requires root.Valid() && Printable(root.tree)
    ensures fresh(out) && Holds(out[..], Text(root.tree, 0, false))
    ensures Escaped(Text(root.tree, 0, false)) && Parse(Text(root.tree, 0, false), true) == Some((root.tree, |Text(root.tree, 0, false)|))
  {
    hide *;
    out := Print(root, true);
    MinifyFormatted(root.tree);
    MinifyInPlace(out, Text(root.tree, 0, true));
    PrintedIsEscaped(root.tree, false);
    ParsePrinted(root.tree, false);
  }

  /** A tree read back from a reply equals the printed one. */
  method Reread(root: Node, fmt: bool) returns (again: Node)
    requires root.Valid() && Printable(root.tree)
    ensures fresh(again.repr) && again.Valid() && again.tree == root.tree
  {
    hide *;
    var out := Print(root, fmt);
    PrintedIsEscaped(root.tree, fmt);
    ParsePrinted(root.tree, fmt);
    var s := Content(out, Text(root.tree, 0, fmt));
    var read, end := ParseText(s, true);
    again := read;
  }
}
