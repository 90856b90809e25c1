/** Parsing text into a tree of nodes. */
module JsonReader {
  import opened Options
  import opened JsonText
  import opened JsonParse
  import opened JsonBuffers
  import opened JsonNodes
  import opened Texts

  /** No literal of the text has a cut-off escape, wherever it is opened. */
  ghost predicate Escaped(s: string) {
    forall i :: 0 <= i < |s| && s[i] == '\"' ==> WellEscaped(s, i + 1)
  }

  lemma EscapedAt(s: string, i: nat)
    requires Escaped(s)
    ensures At(s, i) == '\"' ==> WellEscaped(s, i + 1)
  {
  }

  // ---------- blanks and numbers ----------

  lemma SkipNext(s: string, i: nat)
    ensures At(s, i) != NUL && At(s, i) <= 32 as char ==> i < |s| && Skip(s, i) == Skip(s, i + 1)
    ensures !(At(s, i) != NUL && At(s, i) <= 32 as char) ==> Skip(s, i) == i
  {
  }

  /** skip. */
  method SkipBlanks(s: string, i: nat) returns (j: nat)
    ensures j == Skip(s, i)
  {
    hide *;
    j := i;
    SkipNext(s, j);
    while At(s, j) != NUL && At(s, j) <= 32 as char
      invariant Skip(s, j) == Skip(s, i)
      invariant At(s, j) != NUL && At(s, j) <= 32 as char ==> j < |s|
      decreases |s| - j
    {
      SkipNext(s, j);
      j := j + 1;
      SkipNext(s, j);
    }
    SkipNext(s, j);
  }

  lemma RunNext(s: string, i: nat, n: real)
    ensures IsDigit(At(s, i)) <==> '0' <= At(s, i) <= '9'
    ensures IsDigit(At(s, i)) ==> i < |s| && Run(s, i, n) == Run(s, i + 1, n * 10.0 + (At(s, i) as int - '0' as int) as real)
    ensures !IsDigit(At(s, i)) ==> Run(s, i, n) == (n, i)
  {
  }

  lemma IntRunNext(s: string, i: nat, n: nat)
    ensures IsDigit(At(s, i)) <==> '0' <= At(s, i) <= '9'
    ensures IsDigit(At(s, i)) ==> i < |s| && IntRun(s, i, n) == IntRun(s, i + 1, n * 10 + (At(s, i) as int - '0' as int))
    ensures !IsDigit(At(s, i)) ==> IntRun(s, i, n) == (n, i)
  {
  }

  /** A run of digits of the number; the scale drops by one for each. */
  method Digits(s: string, i: nat, n0: real) returns (n: real, j: nat, scale: int)
    ensures (n, j) == Run(s, i, n0) && scale == i - j
  {
    hide *;
    n, j, scale := n0, i, 0;
    RunNext(s, j, n);
    while '0' <= At(s, j) <= '9'
      invariant Run(s, j, n) == Run(s, i, n0) && scale == i - j
      invariant '0' <= At(s, j) <= '9' ==> j < |s|
      decreases |s| - j
    {
      RunNext(s, j, n);
      n := n * 10.0 + (At(s, j) as int - '0' as int) as real;
      j, scale := j + 1, scale - 1;
      RunNext(s, j, n);
    }
    RunNext(s, j, n);
  }

  /** The digits of the exponent. */
  method ExponentDigits(s: string, i: nat) returns (n: nat, j: nat)
    ensures (n, j) == IntRun(s, i, 0)
  {
    hide *;
    n, j := 0, i;
    IntRunNext(s, j, n);
    while '0' <= At(s, j) <= '9'
      invariant IntRun(s, j, n) == IntRun(s, i, 0)
      invariant '0' <= At(s, j) <= '9' ==> j < |s|
      decreases |s| - j
    {
      IntRunNext(s, j, n);
      n := n * 10 + (At(s, j) as int - '0' as int);
      j := j + 1;
      IntRunNext(s, j, n);
    }
    IntRunNext(s, j, n);
  }

  lemma NumberIs(s: string, start: nat, first: nat, n1: real, second: nat, n2: real, third: nat, scale: int, x: int, end: nat)
    requires first == if At(s, start) == '-' then start + 1 else start
    requires IntegerPart(s, first) == (n1, second) && Fraction(s, second, n1) == (n2, third)
    requires scale == if third > second then -(third - (second + 1)) else 0
    requires Exponent(s, third) == (x, end)
    ensures NumberAt(s, start).0 == (if At(s, start) == '-' then -n2 else n2) * PowerOfTen(scale + x)
    ensures NumberAt(s, start).1 == end
  {
    hide IntegerPart, Fraction, Exponent, At, PowerOfTen;
  }

  method ReadInteger(s: string, i: nat) returns (n: real, num: nat)
    ensures (n, num) == IntegerPart(s, i)
  {
    hide Run, At;
    n, num := 0.0, i;
    if At(s, num) == '0' { num := num + 1; }
    if '1' <= At(s, num) <= '9' {
      var k;
      n, num, k := Digits(s, num, n);
    }
  }

  method ReadFraction(s: string, i: nat, n0: real) returns (n: real, num: nat, scale: int)
    ensures (n, num) == Fraction(s, i, n0) && scale == if num > i then -(num - (i + 1)) else 0
  {
    hide Run, At;
    n, num, scale := n0, i, 0;
    if At(s, num) == '.' && '0' <= At(s, num + 1) <= '9' {
      n, num, scale := Digits(s, num + 1, n);
    }
  }

  method ReadExponent(s: string, i: nat) returns (x: int, num: nat)
    ensures (x, num) == Exponent(s, i)
  {
    hide IntRun, At;
    x, num := 0, i;
    if At(s, num) == 'e' || At(s, num) == 'E' {
      var sign := 1;
      num := num + 1;
      if At(s, num) == '+' { num := num + 1; } else if At(s, num) == '-' { sign, num := -1, num + 1; }
      x, num := ExponentDigits(s, num);
      x := x * sign;
    }
  }

  /** parse_number, without the node. */
  method ReadNumber(s: string, start: nat) returns (n: real, num: nat)
    ensures n == NumberAt(s, start).0 && num == NumberAt(s, start).1
  {
    hide *;
    num := start;
    var negative := At(s, num) == '-';
    if negative { num := num + 1; }
    ghost var first := num;
    n, num := ReadInteger(s, num);
    ghost var whole, second := n, num;
    var scale, x;
    n, num, scale := ReadFraction(s, num, n);
    ghost var fraction, third := n, num;
    x, num := ReadExponent(s, num);
    NumberIs(s, start, first, whole, second, fraction, third, scale, x, num);
    n := (if negative then -n else n) * PowerOfTen(scale + x);
  }

  // ---------- specification of the loops ----------

  /** What follows an element: a comma and more elements, or the closing bracket. */
  function ItemsRest(s: string, v: nat): Option<(seq<Json>, nat)> {
    if At(s, v) == ',' then ItemsAt(s, v + 1) else if At(s, v) == ']' then Some(([], v + 1)) else None
  }

  function MembersRest(s: string, v: nat): Option<(seq<Member>, nat)> {
    if At(s, v) == ',' then MembersAt(s, v + 1) else if At(s, v) == '}' then Some(([], v + 1)) else None
  }

  function After<T>(xs: seq<T>, r: Option<(seq<T>, nat)>): Option<(seq<T>, nat)> {
    match r
    case None => None
    case Some((ys, e)) => Some((xs + ys, e))
  }

  lemma ItemsStep(s: string, i: nat)
    ensures match ValueAt(s, Skip(s, i))
            case None => ItemsAt(s, i) == None
            case Some((x, e)) => ItemsAt(s, i) == After([x], ItemsRest(s, Skip(s, e)))
  {
    hide ValueAt, Skip;
    var r := ValueAt(s, Skip(s, i));
    if r.Some? { assert [r.value.0] + [] == [r.value.0]; }
  }

  /** One member: name, colon, value. */
  function MemberAt(s: string, i: nat): Option<(Member, nat)> {
    match StringAt(s, Skip(s, i))
    case None => None
    case Some((name, e)) =>
      if At(s, Skip(s, e)) != ':' then None
      else match ValueAt(s, Skip(s, Skip(s, e) + 1))
        case None => None
        case Some((x, f)) => Some((Member(name, x), f))
  }

  lemma MembersStep(s: string, i: nat)
    ensures match MemberAt(s, i)
            case None => MembersAt(s, i) == None
            case Some((m, f)) => MembersAt(s, i) == After([m], MembersRest(s, Skip(s, f)))
  {
    hide ValueAt, Skip, StringAt;
    var r := MemberAt(s, i);
    if r.Some? { assert [r.value.0] + [] == [r.value.0]; }
  }

  lemma MemberIs(s: string, i: nat, r: Option<(string, nat)>, k: nat, v: Option<(Json, nat)>)
    requires r == StringAt(s, Skip(s, i))
    requires r.Some? ==> k == Skip(s, r.value.1) && v == ValueAt(s, Skip(s, k + 1))
    ensures r.None? ==> MemberAt(s, i).None?
    ensures r.Some? ==> i < r.value.1
    ensures MemberAt(s, i).Some? ==> i < MemberAt(s, i).value.1
    ensures r.Some? && At(s, k) != ':' ==> MemberAt(s, i).None?
    ensures r.Some? && At(s, k) == ':' && v.None? ==> MemberAt(s, i).None?
    ensures r.Some? && At(s, k) == ':' && v.Some? ==> MemberAt(s, i) == Some((Member(r.value.0, v.value.0), v.value.1))
  {
    hide ValueAt, StringAt;
  }

  lemma AfterAfter<T>(xs: seq<T>, x: T, r: Option<(seq<T>, nat)>)
    ensures After(xs, After([x], r)) == After(xs + [x], r)
    ensures After(xs, None) == None
    ensures [] + [x] == [x]
  {
    if r.Some? { assert xs + ([x] + r.value.0) == xs + [x] + r.value.0; }
  }

  lemma AfterEnd<T>(xs: seq<T>, e: nat)
    ensures After(xs, Some(([], e))) == Some((xs, e)) && After(xs, None) == None
  {
    assert xs + [] == xs;
  }

  lemma ItemsRestIs(s: string, v: nat)
    ensures At(s, v) == ',' ==> ItemsRest(s, v) == ItemsAt(s, v + 1) && v < |s|
    ensures At(s, v) == ']' ==> ItemsRest(s, v) == Some(([], v + 1))
    ensures At(s, v) != ',' && At(s, v) != ']' ==> ItemsRest(s, v) == None
  {
    hide ItemsAt;
  }

  lemma MembersRestIs(s: string, v: nat)
    ensures At(s, v) == ',' ==> MembersRest(s, v) == MembersAt(s, v + 1) && v < |s|
    ensures At(s, v) == '}' ==> MembersRest(s, v) == Some(([], v + 1))
    ensures At(s, v) != ',' && At(s, v) != '}' ==> MembersRest(s, v) == None
  {
    hide MembersAt;
  }

  lemma ArrayAt(s: string, i: nat)
    requires At(s, i) == '['
    ensures var j := Skip(s, i + 1);
      if At(s, j) == ']' then ValueAt(s, i) == Some((Arr([]), j + 1))
      else if ItemsAt(s, j).None? then ValueAt(s, i) == None
      else ValueAt(s, i) == Some((Arr(ItemsAt(s, j).value.0), ItemsAt(s, j).value.1))
  {
    hide ItemsAt, Skip;
    NotLiteral(s, i);
  }

  lemma ObjectAt(s: string, i: nat)
    requires At(s, i) == '{'
    ensures var j := Skip(s, i + 1);
      if At(s, j) == '}' then ValueAt(s, i) == Some((Obj([]), j + 1))
      else if MembersAt(s, j).None? then ValueAt(s, i) == None
      else ValueAt(s, i) == Some((Obj(MembersAt(s, j).value.0), MembersAt(s, j).value.1))
  {
    hide MembersAt, Skip;
    NotLiteral(s, i);
  }

  lemma NotLiteral(s: string, i: nat)
    ensures Here(s, i, "null") ==> At(s, i) == 'n'
    ensures Here(s, i, "false") ==> At(s, i) == 'f'
    ensures Here(s, i, "true") ==> At(s, i) == 't'
  {
  }

  lemma ScalarAt(s: string, i: nat)
    ensures Here(s, i, "null") ==> ValueAt(s, i) == Some((Null, i + 4))
    ensures !Here(s, i, "null") && Here(s, i, "false") ==> ValueAt(s, i) == Some((False, i + 5))
    ensures !Here(s, i, "null") && !Here(s, i, "false") && Here(s, i, "true") ==> ValueAt(s, i) == Some((True, i + 4))
    ensures At(s, i) == '\"' ==> StringAt(s, i).Some? && ValueAt(s, i) == Some((Str(StringAt(s, i).value.0), StringAt(s, i).value.1))
    ensures IsDigit(At(s, i)) <==> '0' <= At(s, i) <= '9'
    ensures At(s, i) == '-' || IsDigit(At(s, i)) ==> ValueAt(s, i) == Some((Number(NumberAt(s, i).0), NumberAt(s, i).1))
    ensures var literal := Here(s, i, "null") || Here(s, i, "false") || Here(s, i, "true");
            var opening := At(s, i) == '\"' || At(s, i) == '-' || IsDigit(At(s, i)) || At(s, i) == '[' || At(s, i) == '{';
            !literal && !opening ==> ValueAt(s, i) == None
  {
    hide ItemsAt, MembersAt, Skip, NumberAt, Body;
    NotLiteral(s, i);
  }

  // ---------- nodes ----------

  lemma Leaf(n: Node)
    requires n.repr == {n} && n.kids == [] && n.child == null
    requires match n.kind
      case IsNull => n.tree == Null
      case IsFalse => n.tree == False
      case IsTrue => n.tree == True
      case IsNumber => n.tree == Number(n.valuedouble)
      case IsString => n.tree == Str(n.valuestring)
      case IsArray => n.tree == Arr([])
      case IsObject => n.tree == Obj([])
    ensures n.Valid()
  {
    hide Node.Valid;
    assert Trees(n.kids) == [] && Members(n.kids) == [];
    Closed(n);
  }

  /** A node as cJSON_New_Item makes it, but perhaps named and linked already. */
  ghost predicate New(n: Node)
    reads n
  {
    n.repr == {n} && n.kids == [] && n.child == null
  }

  /** The text of a filled buffer. */
  method Content(buf: array<char>, ghost t: string) returns (r: string)
    requires Holds(buf[..], t)
    ensures r == t
  {
    hide *;
    var n: nat := 0;
    HeldFrom(buf[..], t, 0);
    while buf[n] != NUL
      invariant n <= |t| < buf.Length && (buf[n] == NUL <==> n == |t|)
      decreases |t| - n
    {
      n := n + 1;
      HeldFrom(buf[..], t, n);
    }
    r := buf[..n];
    HeldFrom(buf[..], t, n);
    assert buf[..][..n] == r;
  }

  lemma HeldFrom(buf: seq<char>, t: string, i: nat)
    requires Holds(buf, t) && i <= |t|
    ensures |t| < |buf| && buf[..|t|] == t && (buf[i] == NUL <==> i == |t|)
  {
    if i < |t| { assert buf[..|t|][i] == t[i]; }
  }

  /** parse_string, as a value: the literal at position i. */
  method ReadString(s: string, i: nat) returns (ok: bool, t: string, end: nat)
    requires Escaped(s)
    ensures ok <==> StringAt(s, i).Some?
    ensures ok ==> StringAt(s, i) == Some((t, end))
  {
    hide *;
    t, end := [], i;
    ok := At(s, i) == '\"';
    StringIs(s, i);
    if ok {
      EscapedAt(s, i);
      var buf;
      buf, end := ParseString(s, i);
      t := Content(buf, StringAt(s, i).value.0);
    }
  }

  /** parse_value. On failure the node is discarded by the caller. */
  method ParseValue(item: Node, s: string, i: nat) returns (ok: bool, end: nat)
    requires Escaped(s) && New(item)
    modifies item
    ensures ok <==> ValueAt(s, i).Some?
    ensures ok ==> ValueAt(s, i) == Some((item.tree, end)) && item.Valid() && fresh(item.repr - {item})
    ensures item.next == old(item.next) && item.prev == old(item.prev) && item.name == old(item.name)
    decreases Left(s, i), 1
  {
    hide *;
    ScalarAt(s, i);
    NewIs(item);
    ok, end := true, i;
    if Here(s, i, "null") {
      item.kind, item.tree, end := IsNull, Null, i + 4;
    } else if Here(s, i, "false") {
      item.kind, item.tree, end := IsFalse, False, i + 5;
    } else if Here(s, i, "true") {
      item.kind, item.tree, end := IsTrue, True, i + 4;
    } else if At(s, i) == '\"' {
      var t;
      ok, t, end := ReadString(s, i);
      item.kind, item.valuestring, item.tree := IsString, t, Str(t);
    } else if At(s, i) == '-' || '0' <= At(s, i) <= '9' {
      var n;
      n, end := ReadNumber(s, i);
      item.kind, item.valuedouble, item.tree := IsNumber, n, Number(n);
    } else if At(s, i) == '[' {
      ok, end := ParseArray(item, s, i);
      return;
    } else if At(s, i) == '{' {
      ok, end := ParseObject(item, s, i);
      return;
    } else {
      return false, i;
    }
    Leaf(item);
  }

  lemma NewIs(n: Node)
    requires New(n)
    ensures n.repr == {n} && n.kids == [] && n.child == null
  {
  }

  /** A new child and the value at position i. */
  method ParseChild(s: string, i: nat) returns (child: Node, ok: bool, end: nat)
    requires Escaped(s)
    ensures fresh(child) && ok <==> ValueAt(s, i).Some?
    ensures ok ==> ValueAt(s, i) == Some((child.tree, end)) && child.Valid() && fresh(child.repr) && child.Detached() && child.name == None
    decreases Left(s, i), 2
  {
    hide *;
    child := new Node();
    Fresh(child);
    ok, end := ParseValue(child, s, i);
    DetachedIs(child);
    assert ok ==> child.repr <= {child} + (child.repr - {child});
  }

  lemma Fresh(n: Node)
    requires n.Valid() && n.repr == {n} && n.kids == []
    ensures New(n)
  {
    hide *;
    ChildIs(n);
    NewIf(n);
  }

  lemma NewIf(n: Node)
    requires n.repr == {n} && n.kids == [] && n.child == null
    ensures New(n)
  {
  }

  lemma LeftLess(s: string, i: nat, j: nat)
    ensures i <= j ==> Left(s, j) <= Left(s, i)
    ensures i < j && i < |s| ==> Left(s, j) < Left(s, i)
  {
  }

  lemma SkipAhead(s: string, i: nat)
    ensures i <= Skip(s, i)
  {
  }

  lemma WithItem(items: seq<Json>, name: Option<string>, x: Json)
    ensures WithChild(Arr(items), name, x) == Arr(items + [x])
  {
  }

  lemma WithMember(members: seq<Member>, name: string, x: Json)
    ensures WithChild(Obj(members), Some(name), x) == Obj(members + [Member(name, x)])
  {
  }

  /** One element of an array: a new last child, and the position after it and the blanks. */
  method ArrayItem(item: Node, last: Node?, s: string, i: nat) returns (ok: bool, child: Node, value: nat)
    requires Escaped(s) && item.Valid() && item.kind == IsArray && item.tree.Arr?
    requires last == Nth(item.kids, |item.kids| - 1)
    modifies item, item.kids
    ensures ok <==> ValueAt(s, Skip(s, i)).Some?
    ensures ok ==> item.Valid() && item.kind == IsArray && fresh(item.repr - old(item.repr)) && child == Nth(item.kids, |item.kids| - 1)
    ensures ok ==> var (x, e) := ValueAt(s, Skip(s, i)).value; item.tree == Arr(old(item.tree.items) + [x]) && value == Skip(s, e)
    ensures item.next == old(item.next) && item.prev == old(item.prev) && item.name == old(item.name)
    decreases Left(s, i), 3
  {
    hide *;
    SkipAhead(s, i);
    LeftLess(s, i, Skip(s, i));
    var at := SkipBlanks(s, i);
    child, ok, value := ParseChild(s, at);
    if !ok { return; }
    item.Join(last, child);
    NthIs(item.kids, |item.kids| - 1);
    WithItem(old(item.tree.items), child.name, child.tree);
    value := SkipBlanks(s, value);
  }

  /** parse_array. */
  method ParseArray(item: Node, s: string, i: nat) returns (ok: bool, end: nat)
    requires Escaped(s) && New(item) && At(s, i) == '['
    modifies item
    ensures ok <==> ValueAt(s, i).Some?
    ensures ok ==> ValueAt(s, i) == Some((item.tree, end)) && item.Valid() && fresh(item.repr - {item})
    ensures item.next == old(item.next) && item.prev == old(item.prev) && item.name == old(item.name)
    decreases Left(s, i), 0
  {
    hide *;
    NewIs(item);
    ArrayAt(s, i);
    Opening(s, i);
    item.kind, item.tree := IsArray, Arr([]);
    Leaf(item);
    var value := SkipBlanks(s, i + 1);
    if At(s, value) == ']' { return true, value + 1; }
    ghost var start := value;
    ItemsStep(s, start);
    LeftLess(s, i, start);
    NthIs(item.kids, -1);
    var found, child;
    found, child, value := ArrayItem(item, null, s, value);
    if !found { return false, i; }
    AfterAfter([], ValueAt(s, Skip(s, start)).value.0, None);
    while At(s, value) == ','
      invariant i < value
      invariant item.Valid() && item.kind == IsArray && fresh(item.repr - {item})
      invariant item.tree.Arr? && ItemsAt(s, start) == After(item.tree.items, ItemsRest(s, value))
      invariant child == Nth(item.kids, |item.kids| - 1)
      invariant item.next == old(item.next) && item.prev == old(item.prev) && item.name == old(item.name)
      decreases |s| - value
    {
      ItemsRestIs(s, value);
      ItemsStep(s, value + 1);
      LeftLess(s, i, value + 1);
      SelfFar(item);
      ghost var xs, v := item.tree.items, ValueAt(s, Skip(s, value + 1));
      AfterAfter(xs, if v.Some? then v.value.0 else Null, if v.Some? then ItemsRest(s, Skip(s, v.value.1)) else None);
      found, child, value := ArrayItem(item, child, s, value + 1);
      if !found { return false, i; }
    }
    ItemsRestIs(s, value);
    AfterEnd(item.tree.items, value + 1);
    ok := At(s, value) == ']';
    end := value + 1;
  }

  lemma Opening(s: string, i: nat)
    ensures At(s, i) == '[' || At(s, i) == '{' ==> i < |s|
    ensures i < Skip(s, i + 1)
  {
  }

  /** One member of an object: a new named last child, and the position after it and the blanks. */
  method ObjectItem(item: Node, last: Node?, s: string, i: nat) returns (ok: bool, child: Node, value: nat)
    requires Escaped(s) && item.Valid() && item.kind == IsObject && item.tree.Obj?
    requires last == Nth(item.kids, |item.kids| - 1)
    modifies item, item.kids
    ensures ok <==> MemberAt(s, i).Some?
    ensures ok ==> item.Valid() && item.kind == IsObject && fresh(item.repr - old(item.repr)) && child == Nth(item.kids, |item.kids| - 1)
    ensures ok ==> i < value
    ensures ok ==> var (m, e) := MemberAt(s, i).value; item.tree == Obj(old(item.tree.members) + [m]) && value == Skip(s, e)
    ensures item.next == old(item.next) && item.prev == old(item.prev) && item.name == old(item.name)
    decreases Left(s, i), 3
  {
    hide *;
    ghost var r := StringAt(s, Skip(s, i));
    ghost var k: nat := if r.Some? then Skip(s, r.value.1) else 0;
    MemberIs(s, i, r, k, ValueAt(s, Skip(s, k + 1)));
    value := i;
    child := new Node();
    Fresh(child);
    var at := SkipBlanks(s, i);
    var name;
    ok, name, at := ReadString(s, at);
    if !ok { return; }
    NewIs(child);
    child.name := Some(name);
    NewIf(child);
    SkipAhead(s, at);
    at := SkipBlanks(s, at);
    if At(s, at) != ':' { return false, child, i; }
    SkipAhead(s, at + 1);
    at := SkipBlanks(s, at + 1);
    LeftLess(s, i, at);
    ok, value := ParseValue(child, s, at);
    if !ok { return; }
    DetachedIs(child);
    assert child.repr <= {child} + (child.repr - {child});
    item.Join(last, child);
    NthIs(item.kids, |item.kids| - 1);
    WithMember(old(item.tree.members), name, child.tree);
    SkipAhead(s, value);
    value := SkipBlanks(s, value);
  }

  /** parse_object. */
  method ParseObject(item: Node, s: string, i: nat) returns (ok: bool, end: nat)
    requires Escaped(s) && New(item) && At(s, i) == '{'
    modifies item
    ensures ok <==> ValueAt(s, i).Some?
    ensures ok ==> ValueAt(s, i) == Some((item.tree, end)) && item.Valid() && fresh(item.repr - {item})
    ensures item.next == old(item.next) && item.prev == old(item.prev) && item.name == old(item.name)
    decreases Left(s, i), 0
  {
    hide *;
    NewIs(item);
    ObjectAt(s, i);
    Opening(s, i);
    item.kind, item.tree := IsObject, Obj([]);
    Leaf(item);
    var value := SkipBlanks(s, i + 1);
    if At(s, value) == '}' { return true, value + 1; }
    ghost var start := value;
    MembersStep(s, start);
    LeftLess(s, i, start);
    NthIs(item.kids, -1);
    var found, child;
    found, child, value := ObjectItem(item, null, s, value);
    if !found { return false, i; }
    AfterAfter([], MemberAt(s, start).value.0, None);
    while At(s, value) == ','
      invariant i < value
      invariant item.Valid() && item.kind == IsObject && fresh(item.repr - {item})
      invariant item.tree.Obj? && MembersAt(s, start) == After(item.tree.members, MembersRest(s, value))
      invariant child == Nth(item.kids, |item.kids| - 1)
      invariant item.next == old(item.next) && item.prev == old(item.prev) && item.name == old(item.name)
      decreases |s| - value
    {
      MembersRestIs(s, value);
      MembersStep(s, value + 1);
      LeftLess(s, i, value + 1);
      SelfFar(item);
      ghost var ms, m := item.tree.members, MemberAt(s, value + 1);
      AfterAfter(ms, if m.Some? then m.value.0 else Member([], Null), if m.Some? then MembersRest(s, Skip(s, m.value.1)) else None);
      found, child, value := ObjectItem(item, child, s, value + 1);
      if !found { return false, i; }
    }
    MembersRestIs(s, value);
    AfterEnd(item.tree.members, value + 1);
    ok := At(s, value) == '}';
    end := value + 1;
  }

  lemma ParseIs(s: string, requireEnd: bool)
    ensures var v := ValueAt(s, Skip(s, 0));
      && (v.None? ==> Parse(s, requireEnd).None?)
      && (v.Some? && !requireEnd ==> Parse(s, requireEnd) == v)
      && (v.Some? && requireEnd && At(s, Skip(s, v.value.1)) != NUL ==> Parse(s, requireEnd).None?)
      && (v.Some? && requireEnd && At(s, Skip(s, v.value.1)) == NUL ==> Parse(s, requireEnd) == Some((v.value.0, Skip(s, v.value.1))))
  {
    hide ValueAt, Skip;
  }

  /** cJSON_ParseWithOpts: a new tree, or null. */
  method ParseText(s: string, requireEnd: bool) returns (root: Node?, end: nat)
    requires Escaped(s)
    ensures root == null <==> Parse(s, requireEnd).None?
    ensures root != null ==> fresh(root.repr) && root.Valid() && Parse(s, requireEnd) == Some((root.tree, end))
  {
    hide *;
    ParseIs(s, requireEnd);
    var at := SkipBlanks(s, 0);
    var child, ok, e := ParseChild(s, at);
    end := e;
    if !ok { return null, end; }
    if requireEnd {
      end := SkipBlanks(s, e);
      if At(s, end) != NUL { return null, end; }
    }
    root := child;
  }
}
