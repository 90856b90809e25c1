/** Printing a tree of nodes: every buffer is allocated with a length counted beforehand. */
module JsonPrinter {
  import opened JsonText
  import opened JsonBuffers
  import opened JsonNodes
  import opened Texts

  // ---------- texts hold no terminator ----------

  lemma NumberNulFree(n: int)
    ensures NulFree(IntText(n))
  {
    hide Decimal;
  }

  lemma {:induction false} TextNulFree(j: Json, depth: nat, fmt: bool)
    requires Printable(j)
    ensures NulFree(Text(j, depth, fmt))
    decreases j, 1
  {
    hide Decimal, Quote, ItemsText, MembersText, IntText;
    match j
    case Null =>
    case False =>
    case True =>
    case Number(n) => NumberNulFree(n.Floor);
    case Str(s) => QuoteIs(s);
    case Arr(items) => ItemsNulFree(items, depth + 1, fmt);
    case Obj(members) => MembersNulFree(members, depth + 1, fmt);
  }

  lemma {:induction false} ItemsNulFree(items: seq<Json>, depth: nat, fmt: bool)
    requires forall x :: x in items ==> Printable(x)
    ensures NulFree(ItemsText(items, depth, fmt))
    decreases items, 0
  {
    hide Text, Printable;
    if items != [] {
      TextNulFree(items[0], depth, fmt);
      ItemsNulFree(items[1..], depth, fmt);
    }
  }

  lemma {:induction false} MembersNulFree(members: seq<Member>, depth: nat, fmt: bool)
    requires forall m: Member :: m in members ==> NulFree(m.name) && Printable(m.value)
    ensures NulFree(MembersText(members, depth, fmt))
    decreases members, 0
  {
    hide Text, Printable, Quote, Tabs;
    if members != [] {
      QuoteIs(members[0].name);
      TextNulFree(members[0].value, depth, fmt);
      MembersNulFree(members[1..], depth, fmt);
    }
  }

  // ---------- room ----------

  function Extra(fmt: bool, n: nat): nat {
    if fmt then n else 0
  }

  /** What print_array counts for the elements. */
  ghost function ItemsRoom(items: seq<Json>, depth: nat, fmt: bool): nat
    requires forall x :: x in items ==> Printable(x)
  {
    if items == [] then 0
    else |Text(items[0], depth, fmt)| + 2 + Extra(fmt, 1) + ItemsRoom(items[1..], depth, fmt)
  }

  /** What print_object counts for the members. */
  ghost function MembersRoom(members: seq<Member>, depth: nat, fmt: bool): nat
    requires forall m: Member :: m in members ==> NulFree(m.name) && Printable(m.value)
  {
    if members == [] then 0
    else |Text(members[0].value, depth, fmt)| + |Quote(members[0].name)| + 2 + Extra(fmt, 2 + depth) + MembersRoom(members[1..], depth, fmt)
  }

  function Tens(d: nat): nat {
    if d == 0 then 1 else 10 * Tens(d - 1)
  }

  lemma {:induction false} DecimalLength(n: nat, d: nat)
    requires d > 0 && n < Tens(d)
    ensures |Decimal(n)| <= d
  {
    if n >= 10 { DecimalLength(n / 10, d - 1); }
  }

  /** A 32-bit integer and its sign fit the buffer of 21 characters. */
  lemma NumberFits(n: int)
    requires INT_MIN <= n <= INT_MAX
    ensures |IntText(n)| <= 11
  {
    hide Decimal;
    assert Tens(5) == 10_0000;
    assert Tens(10) == 100_0000_0000;
    DecimalLength(if n < 0 then -n else n, 10);
  }

  // ---------- one step of the composition ----------

  lemma ItemsNext(items: seq<Json>, i: nat, depth: nat, fmt: bool)
    requires i < |items| && forall x :: x in items ==> Printable(x)
    ensures items[i..] != [] && Printable(items[i])
    ensures ItemsText(items[i..], depth, fmt) ==
            if i + 1 < |items| then Text(items[i], depth, fmt) + ([','] + (When(fmt, " ") + ItemsText(items[i + 1..], depth, fmt)))
            else Text(items[i], depth, fmt)
    ensures ItemsRoom(items[i..], depth, fmt) == |Text(items[i], depth, fmt)| + 2 + Extra(fmt, 1) + ItemsRoom(items[i + 1..], depth, fmt)
  {
    hide Text, Printable, When, Extra;
    assert items[i..][1..] == items[i + 1..];
  }

  lemma MembersNext(members: seq<Member>, i: nat, depth: nat, fmt: bool)
    requires i < |members| && forall m: Member :: m in members ==> NulFree(m.name) && Printable(m.value)
    ensures NulFree(members[i].name) && Printable(members[i].value)
    ensures MembersText(members[i..], depth, fmt) ==
            When(fmt, Tabs(depth)) + (Quote(members[i].name) + ([':'] + (When(fmt, "\t") +
            (Text(members[i].value, depth, fmt) + (Comma(i + 1 < |members|) + (When(fmt, "\n") +
            MembersText(members[i + 1..], depth, fmt)))))))
    ensures MembersRoom(members[i..], depth, fmt) ==
            |Text(members[i].value, depth, fmt)| + |Quote(members[i].name)| + 2 + Extra(fmt, 2 + depth) + MembersRoom(members[i + 1..], depth, fmt)
  {
    hide Text, Printable, When, Extra, Quote, Tabs, NulFree, Comma;
    assert members[i..][1..] == members[i + 1..];
    assert members[i] in members;
  }

  lemma NoneLeft(depth: nat, fmt: bool)
    ensures ItemsText([], depth, fmt) == [] && ItemsRoom([], depth, fmt) == 0
    ensures MembersText([], depth, fmt) == [] && MembersRoom([], depth, fmt) == 0
  {
  }

  // ---------- small copies ----------

  /** strcpy from another buffer. */
  method Copy(out: array<char>, at: nat, from: array<char>, ghost u: string, ghost t: string) returns (at': nat)
    requires Holds(from[..], u) && from != out
    requires Written(out[..], at, t) && at + |u| < out.Length
    modifies out
    ensures at' == at + |u| && Written(out[..], at', t + u)
  {
    hide *;
    at' := at;
    var i: nat := 0;
    HeldAt(from[..], u, 0);
    assert t + u[..0] == t;
    while from[i] != NUL
      invariant i <= |u| < from.Length && at' == at + i
      invariant from[i] == NUL <==> i == |u|
      invariant Written(out[..], at', t + u[..i])
      decreases |u| - i
    {
      HeldAt(from[..], u, i);
      assert t + u[..i + 1] == t + u[..i] + [u[i]];
      at' := Put(out, at', from[i], t + u[..i]);
      i := i + 1;
      HeldAt(from[..], u, i);
    }
    assert u[..i] == u;
    Terminate(out, at', t + u);
  }

  /** The terminator ahead of the next piece. */
  method Terminate(out: array<char>, at: nat, ghost t: string)
    requires Written(out[..], at, t) && at < out.Length
    modifies out
    ensures Written(out[..], at, t)
  {
    hide Written;
    WrittenPrefix(out, at, t);
    out[at] := NUL;
    PrefixWritten(out, at, t);
  }

  lemma HeldAt(buf: seq<char>, u: string, i: nat)
    requires Holds(buf, u) && i <= |u|
    ensures |u| < |buf| && (buf[i] == NUL <==> i == |u|)
    ensures i < |u| ==> buf[i] == u[i]
  {
    if i < |u| { assert buf[..|u|][i] == u[i]; }
  }

  /** A character of formatted output only. */
  method PutWhen(out: array<char>, at: nat, fmt: bool, c: char, ghost t: string) returns (at': nat)
    requires Written(out[..], at, t) && at + Extra(fmt, 1) < out.Length
    modifies out
    ensures at' == at + Extra(fmt, 1) && Written(out[..], at', t + When(fmt, [c]))
  {
    hide Written;
    at' := at;
    assert t + [] == t;
    if fmt { at' := Put(out, at, c, t); }
  }

  method PutTabs(out: array<char>, at: nat, n: int, ghost t: string) returns (at': nat)
    requires Written(out[..], at, t) && at + |Tabs(n)| < out.Length
    modifies out
    ensures at' == at + |Tabs(n)| && Written(out[..], at', t + Tabs(n))
  {
    hide *;
    at' := at;
    var i := 0;
    ghost var u := t;
    WrittenPrefix(out, at, t);
    TabsNext(n);
    while i < n
      invariant 0 <= i && (i <= n || n <= 0)
      invariant at' == |u| && at' + |Tabs(n - i)| == at + |Tabs(n)|
      invariant Written(out[..], at', u) && u + Tabs(n - i) == t + Tabs(n)
    {
      TabsNext(n - i);
      assert u + (['\t'] + Tabs(n - i - 1)) == (u + ['\t']) + Tabs(n - i - 1);
      at' := Put(out, at', '\t', u);
      u := u + ['\t'];
      i := i + 1;
    }
    TabsNext(n - i);
    assert u + [] == u;
  }

  lemma TabsNext(n: int)
    ensures |Tabs(n)| == if n < 0 then 0 else n
    ensures n <= 0 ==> Tabs(n) == []
    ensures n > 0 ==> Tabs(n) == ['\t'] + Tabs(n - 1)
  {
  }

  method StrDup(t: string) returns (out: array<char>)
    requires NulFree(t)
    ensures fresh(out) && Holds(out[..], t)
  {
    hide *;
    out := new char[|t| + 1];
    Blank(out[..]);
    var at := PutText(out, 0, t, []);
    assert [] + t == t;
    at := Put(out, at, NUL, t);
    Finished(out[..], t);
  }

  /** print_number for the integers: a buffer of 21 characters. */
  method PrintNumber(n: real) returns (out: array<char>)
    requires IsInt32(n)
    ensures fresh(out) && out.Length == 21 && Holds(out[..], IntText(n.Floor))
  {
    hide IntText, Written, Holds, NulFree;
    NumberFits(n.Floor);
    NumberNulFree(n.Floor);
    var t := IntText(n.Floor);
    out := new char[21];
    Blank(out[..]);
    var at := PutText(out, 0, t, []);
    assert [] + t == t;
    at := Put(out, at, NUL, t);
    Finished(out[..], t);
  }

  // ---------- trees ----------

  /** print_value. */
  method PrintValue(item: Node, depth: nat, fmt: bool) returns (out: array<char>)
    requires item.Valid() && Printable(item.tree)
    ensures fresh(out) && Holds(out[..], Text(item.tree, depth, fmt))
    decreases item.repr, 2
  {
    hide *;
    Fields(item);
    TextIs(item.tree, depth, fmt);
    match item.kind
    case IsNull => out := StrDup("null");
    case IsFalse => out := StrDup("false");
    case IsTrue => out := StrDup("true");
    case IsNumber => out := PrintNumber(item.valuedouble);
    case IsString => out := PrintString(item.valuestring);
    case IsArray => out := PrintArray(item, depth, fmt);
    case IsObject => out := PrintObject(item, depth, fmt);
  }

  lemma Fields(item: Node)
    requires item.Valid()
    ensures match item.kind
      case IsNull => item.tree == Null
      case IsFalse => item.tree == False
      case IsTrue => item.tree == True
      case IsNumber => item.tree == Number(item.valuedouble)
      case IsString => item.tree == Str(item.valuestring)
      case IsArray => item.tree.Arr? && |item.tree.items| == |item.kids|
      case IsObject => item.tree.Obj? && |item.tree.members| == |item.kids|
  {
    hide Node.Valid, Owned, Disjoint, Chained;
    Opened(item);
  }

  lemma TextIs(j: Json, depth: nat, fmt: bool)
    requires Printable(j)
    ensures j == Null ==> Text(j, depth, fmt) == "null" && NulFree("null")
    ensures j == False ==> Text(j, depth, fmt) == "false" && NulFree("false")
    ensures j == True ==> Text(j, depth, fmt) == "true" && NulFree("true")
    ensures j.Number? ==> Text(j, depth, fmt) == IntText(j.n.Floor) && IsInt32(j.n)
    ensures j.Str? ==> Text(j, depth, fmt) == Quote(j.s) && NulFree(j.s)
  {
    hide IntText, Quote;
  }

  lemma ArrayIs(j: Json, depth: nat, fmt: bool)
    requires Printable(j) && j.Arr?
    ensures forall x :: x in j.items ==> Printable(x)
    ensures j.items == [] ==> Text(j, depth, fmt) == "[]"
    ensures j.items != [] ==> Text(j, depth, fmt) == ['['] + (ItemsText(j.items, depth + 1, fmt) + [']'])
  {
    hide ItemsText;
  }

  /** The child at an index and its tree. */
  lemma ArrayKid(item: Node, i: nat)
    requires item.Valid() && item.kind == IsArray && i < |item.kids|
    ensures item.tree.Arr? && i < |item.tree.items| && item.kids[i].tree == item.tree.items[i]
    ensures item.kids[i].Valid() && item.kids[i].repr < item.repr
    ensures item.kids[i].next == if i + 1 < |item.kids| then item.kids[i + 1] else null
  {
    hide *;
    KidTree(item, i);
    Around(item, i);
    Opened(item);
    ArrayTree(item);
  }

  lemma ArrayTree(item: Node)
    requires item.Denotes() && item.kind == IsArray
    ensures item.tree.Arr? && |item.tree.items| == |item.kids|
    ensures forall i :: 0 <= i < |item.kids| ==> item.tree.items[i] == item.kids[i].tree
  {
  }

  /** The printed elements, and a length that has room for them. */
  method PrintItems(item: Node, depth: nat, fmt: bool) returns (entries: seq<array<char>>, len: nat)
    requires item.Valid() && item.kind == IsArray && item.tree.Arr? && forall x :: x in item.tree.items ==> Printable(x)
    ensures |entries| == |item.tree.items|
    ensures forall j :: 0 <= j < |entries| ==> fresh(entries[j]) && Holds(entries[j][..], Text(item.tree.items[j], depth, fmt))
    ensures len == 5 + ItemsRoom(item.tree.items, depth, fmt)
    decreases item.repr, 0
  {
    hide *;
    Fields(item);
    ChildIs(item);
    entries, len := [], 5;
    var child := item.child;
    ghost var items := item.tree.items;
    assert items[0..] == items;
    while child != null
      invariant |entries| <= |items| == |item.kids|
      invariant child == if |entries| < |item.kids| then item.kids[|entries|] else null
      invariant forall j :: 0 <= j < |entries| ==> fresh(entries[j]) && Holds(entries[j][..], Text(items[j], depth, fmt))
      invariant len + ItemsRoom(items[|entries|..], depth, fmt) == 5 + ItemsRoom(items, depth, fmt)
      decreases |items| - |entries|
    {
      ghost var i := |entries|;
      ArrayKid(item, i);
      var ret := PrintValue(child, depth, fmt);
      var n := StrLen(ret, Text(items[i], depth, fmt));
      ExtraIs(fmt, 1);
      ItemsNext(items, i, depth, fmt);
      len := len + n + 2 + (if fmt then 1 else 0);
      entries := entries + [ret];
      child := child.next;
    }
    assert items[|items|..] == [];
    NoneLeft(depth, fmt);
  }

  lemma ExtraIs(fmt: bool, n: nat)
    ensures Extra(fmt, n) == if fmt then n else 0
  {
  }

  method StrLen(from: array<char>, ghost u: string) returns (n: nat)
    requires Holds(from[..], u)
    ensures n == |u|
  {
    hide *;
    n := 0;
    HeldAt(from[..], u, 0);
    while from[n] != NUL
      invariant n <= |u| < from.Length && (from[n] == NUL <==> n == |u|)
      decreases |u| - n
    {
      n := n + 1;
      HeldAt(from[..], u, n);
    }
  }

  /** The composed array: bracket, elements with their separators, bracket and terminator. */
  method ComposeArray(out: array<char>, entries: seq<array<char>>, ghost items: seq<Json>, depth: nat, fmt: bool)
    requires |entries| == |items| > 0 && forall x :: x in items ==> Printable(x)
    requires forall j :: 0 <= j < |entries| ==> entries[j] != out && Holds(entries[j][..], Text(items[j], depth, fmt))
    requires out.Length == 5 + ItemsRoom(items, depth, fmt)
    modifies out
    ensures var t := ['['] + ItemsText(items, depth, fmt) + [']']; Written(out[..], |t| + 1, t + [NUL])
  {
    hide *;
    Blank(out[..]);
    var at := Put(out, 0, '[', []);
    ghost var t: string := ['['];
    assert [] + ['['] == t;
    Terminate(out, at, t);
    var i := 0;
    assert items[0..] == items;
    while i < |entries|
      invariant 0 <= i <= |entries| && at == |t| && at + ItemsRoom(items[i..], depth, fmt) + 4 <= out.Length
      invariant forall j :: 0 <= j < |entries| ==> Holds(entries[j][..], Text(items[j], depth, fmt))
      invariant Written(out[..], at, t) && t + ItemsText(items[i..], depth, fmt) == ['['] + ItemsText(items, depth, fmt)
    {
      ItemsNext(items, i, depth, fmt);
      ExtraIs(fmt, 1);
      WhenIs(fmt, " ");
      ghost var u, rest := Text(items[i], depth, fmt), ItemsText(items[i + 1..], depth, fmt);
      at := Copy(out, at, entries[i], u, t);
      if i != |entries| - 1 {
        assert t + (u + ([','] + (When(fmt, " ") + rest))) == t + u + [','] + When(fmt, " ") + rest;
        at := Put(out, at, ',', t + u);
        at := PutWhen(out, at, fmt, ' ', t + u + [',']);
        t := t + u + [','] + When(fmt, " ");
        Terminate(out, at, t);
      } else {
        assert items[i + 1..] == [];
        NoneLeft(depth, fmt);
        t := t + u;
        assert t + [] == t;
      }
      i := i + 1;
    }
    assert items[i..] == [];
    NoneLeft(depth, fmt);
    assert t + [] == t;
    at := Put(out, at, ']', t);
    at := Put(out, at, NUL, t + [']']);
  }

  lemma WhenIs(fmt: bool, t: string)
    ensures When(fmt, t) == if fmt then t else []
  {
  }

  /** print_array. */
  method PrintArray(item: Node, depth: nat, fmt: bool) returns (out: array<char>)
    requires item.Valid() && item.kind == IsArray && Printable(item.tree)
    ensures fresh(out) && Holds(out[..], Text(item.tree, depth, fmt))
    decreases item.repr, 1
  {
    hide *;
    Fields(item);
    ChildIs(item);
    ArrayIs(item.tree, depth, fmt);
    TextNulFree(item.tree, depth, fmt);
    if item.child == null {
      out := StrDup("[]");
      return;
    }
    ghost var items := item.tree.items;
    var entries, len := PrintItems(item, depth + 1, fmt);
    out := new char[len];
    ComposeArray(out, entries, items, depth + 1, fmt);
    assert ['['] + (ItemsText(items, depth + 1, fmt) + [']']) == ['['] + ItemsText(items, depth + 1, fmt) + [']'];
    Finished(out[..], Text(item.tree, depth, fmt));
  }

  lemma ObjectIs(j: Json, depth: nat, fmt: bool)
    requires Printable(j) && j.Obj?
    ensures forall m: Member :: m in j.members ==> NulFree(m.name) && Printable(m.value)
    ensures j.members == [] ==> Text(j, depth, fmt) == ['{'] + (When(fmt, ['\n'] + Tabs(depth - 1)) + ['}'])
    ensures var text := ['{'] + (When(fmt, "\n") + (MembersText(j.members, depth + 1, fmt) + (When(fmt, Tabs(depth)) + ['}'])));
            j.members != [] ==> Text(j, depth, fmt) == text
  {
    hide MembersText, Tabs, When;
  }

  lemma ObjectKid(item: Node, i: nat)
    requires item.Valid() && item.kind == IsObject && i < |item.kids|
    ensures item.tree.Obj? && i < |item.tree.members|
    ensures item.kids[i].name.Some? && item.tree.members[i] == Member(item.kids[i].name.value, item.kids[i].tree)
    ensures item.kids[i].Valid() && item.kids[i].repr < item.repr
    ensures item.kids[i].next == if i + 1 < |item.kids| then item.kids[i + 1] else null
  {
    hide *;
    KidTree(item, i);
    Around(item, i);
    Opened(item);
    ObjectTree(item, i);
  }

  lemma ObjectTree(item: Node, i: nat)
    requires item.Denotes() && item.kind == IsObject && i < |item.kids|
    ensures item.tree.Obj? && |item.tree.members| == |item.kids|
    ensures item.kids[i].name.Some? && item.tree.members[i] == Member(item.kids[i].name.value, item.kids[i].tree)
  {
  }

  /** The quoted name and the printed value of a member. */
  ghost predicate Printed(name: array<char>, entry: array<char>, m: Member, depth: nat, fmt: bool)
    requires Printable(m.value)
    reads name, entry
  {
    Holds(name[..], Quote(m.name)) && Holds(entry[..], Text(m.value, depth, fmt))
  }

  /** The printed names and values, and a length that has room for them. */
  method PrintMembers(item: Node, depth: nat, fmt: bool) returns (names: seq<array<char>>, entries: seq<array<char>>, len: nat)
    requires item.Valid() && item.kind == IsObject && item.tree.Obj?
    requires forall m: Member :: m in item.tree.members ==> NulFree(m.name) && Printable(m.value)
    ensures |names| == |entries| == |item.tree.members|
    ensures forall j :: 0 <= j < |entries| ==> fresh(names[j]) && fresh(entries[j]) && Printed(names[j], entries[j], item.tree.members[j], depth, fmt)
    ensures len == 7 + Extra(fmt, depth) + MembersRoom(item.tree.members, depth, fmt)
    decreases item.repr, 0
  {
    hide *;
    Fields(item);
    ChildIs(item);
    ExtraIs(fmt, depth);
    names, entries, len := [], [], 7;
    if fmt { len := len + depth; }
    var child := item.child;
    ghost var members := item.tree.members;
    assert members[0..] == members;
    while child != null
      invariant |names| == |entries| <= |members| == |item.kids|
      invariant child == if |entries| < |item.kids| then item.kids[|entries|] else null
      invariant forall j :: 0 <= j < |entries| ==> fresh(names[j]) && fresh(entries[j]) && Printed(names[j], entries[j], members[j], depth, fmt)
      invariant len + MembersRoom(members[|entries|..], depth, fmt) == 7 + Extra(fmt, depth) + MembersRoom(members, depth, fmt)
      decreases |members| - |entries|
    {
      ghost var i := |entries|;
      ObjectKid(item, i);
      MembersNext(members, i, depth, fmt);
      ExtraIs(fmt, 2 + depth);
      var str := PrintString(child.name.value);
      var ret := PrintValue(child, depth, fmt);
      var n := StrLen(ret, Text(members[i].value, depth, fmt));
      var m := StrLen(str, Quote(members[i].name));
      len := len + n + m + 2 + (if fmt then 2 + depth else 0);
      PrintedIf(str, ret, members[i], depth, fmt);
      names, entries := names + [str], entries + [ret];
      child := child.next;
    }
    assert members[|members|..] == [];
    NoneLeft(depth, fmt);
  }

  lemma PrintedIf(name: array<char>, entry: array<char>, m: Member, depth: nat, fmt: bool)
    requires Printable(m.value)
    ensures Printed(name, entry, m, depth, fmt) <==> Holds(name[..], Quote(m.name)) && Holds(entry[..], Text(m.value, depth, fmt))
  {
  }

  method PutWhenTabs(out: array<char>, at: nat, fmt: bool, n: int, ghost t: string) returns (at': nat)
    requires Written(out[..], at, t) && at + Extra(fmt, |Tabs(n)|) < out.Length
    modifies out
    ensures at' == at + Extra(fmt, |Tabs(n)|) && Written(out[..], at', t + When(fmt, Tabs(n)))
  {
    hide Written, Tabs;
    at' := at;
    assert t + [] == t;
    if fmt { at' := PutTabs(out, at, n, t); }
  }

  /** The room one member takes at most. */
  lemma MemberRoom(m: Member, depth: nat, fmt: bool)
    requires Printable(m.value)
    ensures Extra(fmt, |Tabs(depth)|) == Extra(fmt, depth)
    ensures Extra(fmt, 2 + depth) == Extra(fmt, depth) + Extra(fmt, 1) + Extra(fmt, 1)
  {
    hide Tabs;
    TabsNext(depth);
  }

  /** One member: tabs, name, colon, value, comma, newline. */
  method ComposeMember(out: array<char>, at: nat, name: array<char>, entry: array<char>, ghost m: Member, more: bool,
                       depth: nat, fmt: bool, ghost t: string)
    returns (at': nat)
    requires Printable(m.value) && Printed(name, entry, m, depth, fmt) && name != out && entry != out
    requires Written(out[..], at, t)
    requires at + |Text(m.value, depth, fmt)| + |Quote(m.name)| + 2 + Extra(fmt, 2 + depth) < out.Length
    modifies out
    ensures at' <= at + |Text(m.value, depth, fmt)| + |Quote(m.name)| + 2 + Extra(fmt, 2 + depth)
    ensures Written(out[..], at', t + When(fmt, Tabs(depth)) + Quote(m.name) + [':'] + When(fmt, "\t")
                                  + Text(m.value, depth, fmt) + Comma(more) + When(fmt, "\n"))
  {
    hide *;
    PrintedIf(name, entry, m, depth, fmt);
    MemberRoom(m, depth, fmt);
    CommaIs(more);
    at' := PutWhenTabs(out, at, fmt, depth, t);
    ghost var u := t + When(fmt, Tabs(depth));
    at' := Copy(out, at', name, Quote(m.name), u);
    u := u + Quote(m.name);
    at' := Put(out, at', ':', u);
    u := u + [':'];
    at' := PutWhen(out, at', fmt, '\t', u);
    u := u + When(fmt, "\t");
    at' := Copy(out, at', entry, Text(m.value, depth, fmt), u);
    u := u + Text(m.value, depth, fmt);
    assert u + [] == u;
    if more { at' := Put(out, at', ',', u); }
    u := u + Comma(more);
    at' := PutWhen(out, at', fmt, '\n', u);
    u := u + When(fmt, "\n");
    Terminate(out, at', u);
  }

  /** The composed object: brace, members, tabs, brace and terminator; depth is that of the members. */
  method ComposeObject(out: array<char>, names: seq<array<char>>, entries: seq<array<char>>, ghost members: seq<Member>, depth: nat, fmt: bool)
    requires depth > 0 && |names| == |entries| == |members| > 0
    requires forall m: Member :: m in members ==> NulFree(m.name) && Printable(m.value)
    requires forall j :: 0 <= j < |entries| ==> names[j] != out && entries[j] != out && Printed(names[j], entries[j], members[j], depth, fmt)
    requires out.Length == 7 + Extra(fmt, depth) + MembersRoom(members, depth, fmt)
    modifies out
    ensures var t := ['{'] + When(fmt, "\n") + MembersText(members, depth, fmt) + When(fmt, Tabs(depth - 1)) + ['}'];
            Written(out[..], |t| + 1, t + [NUL])
  {
    hide *;
    Blank(out[..]);
    ExtraIs(fmt, 1);
    ExtraIs(fmt, depth);
    var at: nat := Put(out, 0, '{', []);
    ghost var t: string := ['{'];
    assert [] + ['{'] == t;
    at := PutWhen(out, at, fmt, '\n', t);
    t := t + When(fmt, "\n");
    ghost var start := t;
    Terminate(out, at, t);
    var i: nat := 0;
    assert members[0..] == members;
    while i < |entries|
      invariant 0 <= i <= |entries|
      invariant at + MembersRoom(members[i..], depth, fmt) <= 2 + MembersRoom(members, depth, fmt)
      invariant forall j :: 0 <= j < |entries| ==> Printed(names[j], entries[j], members[j], depth, fmt)
      invariant Written(out[..], at, t) && t + MembersText(members[i..], depth, fmt) == start + MembersText(members, depth, fmt)
    {
      var more := i != |entries| - 1;
      MembersNext(members, i, depth, fmt);
      Regroup(t, When(fmt, Tabs(depth)), Quote(members[i].name), [':'], When(fmt, "\t"), Text(members[i].value, depth, fmt),
              Comma(more), When(fmt, "\n"), MembersText(members[i + 1..], depth, fmt));
      at := ComposeMember(out, at, names[i], entries[i], members[i], more, depth, fmt, t);
      t := t + When(fmt, Tabs(depth)) + Quote(members[i].name) + [':'] + When(fmt, "\t")
             + Text(members[i].value, depth, fmt) + Comma(more) + When(fmt, "\n");
      i := i + 1;
    }
    assert members[i..] == [];
    NoneLeft(depth, fmt);
    assert t + [] == t;
    TabsNext(depth - 1);
    ExtraIs(fmt, |Tabs(depth - 1)|);
    at := PutWhenTabs(out, at, fmt, depth - 1, t);
    t := t + When(fmt, Tabs(depth - 1));
    at := Put(out, at, '}', t);
    at := Put(out, at, NUL, t + ['}']);
    AtIs(out[..], at, t + ['}'] + [NUL]);
  }

  lemma AtIs(buf: seq<char>, at: nat, t: string)
    requires Written(buf, at, t)
    ensures at == |t|
  {
  }

  lemma Regroup(t: string, a: string, b: string, c: string, d: string, e: string, f: string, g: string, h: string)
    ensures t + (a + (b + (c + (d + (e + (f + (g + h))))))) == t + a + b + c + d + e + f + g + h
  {
    assert t + (a + (b + (c + (d + (e + (f + (g + h))))))) == (t + a) + (b + (c + (d + (e + (f + (g + h))))));
    assert (t + a) + (b + (c + (d + (e + (f + (g + h)))))) == (t + a + b) + (c + (d + (e + (f + (g + h)))));
    assert (t + a + b) + (c + (d + (e + (f + (g + h))))) == (t + a + b + c) + (d + (e + (f + (g + h))));
    assert (t + a + b + c) + (d + (e + (f + (g + h)))) == (t + a + b + c + d) + (e + (f + (g + h)));
    assert (t + a + b + c + d) + (e + (f + (g + h))) == (t + a + b + c + d + e) + (f + (g + h));
    assert (t + a + b + c + d + e) + (f + (g + h)) == (t + a + b + c + d + e + f) + (g + h);
  }

  /** An object without members. */
  method PrintEmpty(depth: nat, fmt: bool) returns (out: array<char>)
    ensures fresh(out) && out.Length == if fmt then depth + 4 else 3
    ensures var t := ['{'] + (When(fmt, ['\n'] + Tabs(depth - 1)) + ['}']); NulFree(t) ==> Holds(out[..], t)
  {
    hide *;
    out := new char[if fmt then depth + 4 else 3];
    Blank(out[..]);
    WhenIs(fmt, ['\n'] + Tabs(depth - 1));
    WhenIs(fmt, ['\n']);
    WhenIs(fmt, Tabs(depth - 1));
    ExtraIs(fmt, 1);
    ExtraIs(fmt, |Tabs(depth - 1)|);
    TabsNext(depth - 1);
    var at := Put(out, 0, '{', []);
    assert [] + ['{'] == ['{'];
    at := PutWhen(out, at, fmt, '\n', ['{']);
    at := PutWhenTabs(out, at, fmt, depth - 1, ['{'] + When(fmt, ['\n']));
    ghost var t := ['{'] + When(fmt, ['\n']) + When(fmt, Tabs(depth - 1));
    at := Put(out, at, '}', t);
    at := Put(out, at, NUL, t + ['}']);
    AtIs(out[..], at, t + ['}'] + [NUL]);
    assert t + ['}'] == ['{'] + (When(fmt, ['\n'] + Tabs(depth - 1)) + ['}']);
    if NulFree(t + ['}']) { Finished(out[..], t + ['}']); }
  }

  /** print_object. */
  method PrintObject(item: Node, depth: nat, fmt: bool) returns (out: array<char>)
    requires item.Valid() && item.kind == IsObject && Printable(item.tree)
    ensures fresh(out) && Holds(out[..], Text(item.tree, depth, fmt))
    decreases item.repr, 1
  {
    hide *;
    Fields(item);
    ChildIs(item);
    ObjectIs(item.tree, depth, fmt);
    TextNulFree(item.tree, depth, fmt);
    ghost var members := item.tree.members;
    if item.child == null {
      out := PrintEmpty(depth, fmt);
      return;
    }
    var names, entries, len := PrintMembers(item, depth + 1, fmt);
    out := new char[len];
    ComposeObject(out, names, entries, members, depth + 1, fmt);
    RegroupObject(['{'], When(fmt, "\n"), MembersText(members, depth + 1, fmt), When(fmt, Tabs(depth)), ['}']);
    Finished(out[..], Text(item.tree, depth, fmt));
  }

  lemma RegroupObject(a: string, b: string, c: string, d: string, e: string)
    ensures a + (b + (c + (d + e))) == a + b + c + d + e
  {
    assert a + (b + (c + (d + e))) == (a + b) + (c + (d + e));
    assert (a + b) + (c + (d + e)) == (a + b + c) + (d + e);
  }

  /** cJSON_Print and cJSON_PrintUnformatted. */
  method Print(item: Node, fmt: bool) returns (out: array<char>)
    requires item.Valid() && Printable(item.tree)
    ensures fresh(out) && Holds(out[..], Text(item.tree, 0, fmt))
  {
    hide *;
    out := PrintValue(item, 0, fmt);
  }
}
