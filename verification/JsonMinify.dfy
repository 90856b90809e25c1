/** Minifying in place: what it keeps of a text, and that formatted output becomes exactly the
  * unformatted one. */
module JsonMinify {
  import opened Options
  import opened JsonText
  import opened Texts

  /** The text after the first newline-free stretch: a double-slash comment ends before a newline. */
  function AfterLine(s: string): (r: string)
    ensures |r| <= |s|
  {
    if s == [] || s[0] == '\n' then s else AfterLine(s[1..])
  }

  /** The text after the closing mark of a block comment, if it is closed. */
  function AfterBlock(s: string): (r: Option<string>)
    ensures r.Some? ==> |r.value| < |s|
  {
    if s == [] then None
    else if |s| >= 2 && s[0] == '*' && s[1] == '/' then Some(s[2..])
    else AfterBlock(s[1..])
  }

  /** The length of a string literal's remainder up to and including its closing quotation mark; a
    * backslash takes the next character with it. None if the text ends first. */
  function LiteralEnd(s: string): (r: Option<nat>)
    ensures r.Some? ==> 0 < r.value <= |s|
  {
    if s == [] then None
    else if s[0] == '\"' then Some(1)
    else if s[0] == '\\' then
      if |s| == 1 then None
      else match LiteralEnd(s[2..])
        case Some(n) => Some(n + 2)
        case None => None
    else match LiteralEnd(s[1..])
      case Some(n) => Some(n + 1)
      case None => None
  }

  predicate IsWhite(c: char) {
    c == ' ' || c == '\t' || c == '\r' || c == '\n'
  }

  /** What cJSON_Minify leaves of a text, or None if a comment or a string literal is not closed, in
    * which case the source reads past the terminator. */
  function Minify(s: string): (r: Option<string>)
    ensures r.Some? ==> |r.value| <= |s|
    decreases |s|
  {
    if s == [] then Some([])
    else if IsWhite(s[0]) then Minify(s[1..])
    else if s[0] == '/' && |s| >= 2 && s[1] == '/' then Minify(AfterLine(s[1..]))
    else if s[0] == '/' && |s| >= 2 && s[1] == '*' then
      match AfterBlock(s[1..])
      case Some(rest) => Minify(rest)
      case None => None
    else if s[0] == '\"' then
      match LiteralEnd(s[1..])
      case Some(n) => Prepend(s[..n + 1], Minify(s[n + 1..]))
      case None => None
    else Prepend(s[..1], Minify(s[1..]))
  }

  function Prepend(a: string, r: Option<string>): Option<string> {
    match r
    case Some(t) => Some(a + t)
    case None => None
  }

  // ---------- formatted to unformatted ----------

  /** In front of any text, s is minified to t on its own. */
  ghost predicate Reduces(s: string, t: string) {
    forall rest: string :: Minify(s + rest) == Prepend(t, Minify(rest))
  }

  lemma ReducesAt(s: string, t: string, rest: string)
    requires Reduces(s, t)
    ensures Minify(s + rest) == Prepend(t, Minify(rest))
  {
  }

  lemma PrependTwice(x: string, y: string, r: Option<string>)
    ensures Prepend(x, Prepend(y, r)) == Prepend(x + y, r)
    ensures Prepend([], r) == r
  {
    if r.Some? {
      assert x + (y + r.value) == (x + y) + r.value;
      assert [] + r.value == r.value;
    }
  }

  lemma ConcatAt(a: string, x: string, b: string, y: string, rest: string)
    requires Reduces(a, x) && Reduces(b, y)
    ensures Minify((a + b) + rest) == Prepend(x + y, Minify(rest))
  {
    hide *;
    assert (a + b) + rest == a + (b + rest);
    ReducesAt(a, x, b + rest);
    ReducesAt(b, y, rest);
    PrependTwice(x, y, Minify(rest));
  }

  lemma ReducesConcat(a: string, x: string, b: string, y: string)
    requires Reduces(a, x) && Reduces(b, y)
    ensures Reduces(a + b, x + y)
  {
    hide Minify, Prepend;
    forall rest: string ensures Minify((a + b) + rest) == Prepend(x + y, Minify(rest)) {
      ConcatAt(a, x, b, y, rest);
    }
  }

  lemma ReducesNone()
    ensures Reduces([], [])
  {
    hide Minify, Prepend;
    forall rest: string ensures Minify([] + rest) == Prepend([], Minify(rest)) {
      assert [] + rest == rest;
      PrependTwice([], [], Minify(rest));
    }
  }

  lemma ReducesWhite(c: char)
    requires IsWhite(c)
    ensures Reduces([c], [])
  {
    hide Prepend;
    forall rest: string ensures Minify([c] + rest) == Prepend([], Minify(rest)) {
      WhiteAt(c, rest);
    }
  }

  lemma WhiteAt(c: char, rest: string)
    requires IsWhite(c)
    ensures Minify([c] + rest) == Prepend([], Minify(rest))
  {
    assert ([c] + rest)[1..] == rest;
    PrependTwice([], [], Minify(rest));
  }

  lemma ReducesPlain(c: char)
    requires !IsWhite(c) && c != '/' && c != '\"'
    ensures Reduces([c], [c])
  {
    forall rest: string ensures Minify([c] + rest) == Prepend([c], Minify(rest)) {
      assert ([c] + rest)[1..] == rest && ([c] + rest)[..1] == [c];
    }
  }

  lemma {:induction false} ReducesPlainText(t: string)
    requires forall c :: c in t ==> !IsWhite(c) && c != '/' && c != '\"'
    ensures Reduces(t, t)
  {
    hide Reduces;
    if t == [] {
      ReducesNone();
    } else {
      ReducesPlain(t[0]);
      ReducesPlainText(t[1..]);
      ReducesConcat([t[0]], [t[0]], t[1..], t[1..]);
      assert [t[0]] + t[1..] == t;
    }
  }

  lemma {:induction false} ReducesTabs(n: int)
    ensures Reduces(Tabs(n), [])
    decreases n
  {
    hide Reduces;
    if n <= 0 {
      ReducesNone();
    } else {
      ReducesWhite('\t');
      ReducesTabs(n - 1);
      ReducesConcat(['\t'], [], Tabs(n - 1), []);
      assert "" + "" == "";
    }
  }

  /** The printed form of a character does not end its literal. */
  lemma LiteralUnit(c: char, t: string)
    ensures LiteralEnd(EscapeChar(c) + t) ==
            match LiteralEnd(t) { case Some(n) => Some(n + |EscapeChar(c)|) case None => None }
  {
    var e := EscapeChar(c);
    if |e| == 1 {
      assert (e + t)[1..] == t;
    } else if |e| == 2 {
      assert (e + t)[2..] == t;
    } else {
      LiteralControl(c, t);
    }
  }

  lemma LiteralControl(c: char, t: string)
    requires c < 32 as char
    ensures LiteralEnd(['\\'] + ControlEscape(c) + t) == match LiteralEnd(t) { case Some(n) => Some(n + 6) case None => None }
  {
    hide LiteralEnd;
    var e := ControlEscape(c);
    LiteralPlain(e[4], t);
    LiteralPlain(e[3], [e[4]] + t);
    LiteralPlain(e[2], [e[3]] + ([e[4]] + t));
    LiteralPlain(e[1], [e[2]] + ([e[3]] + ([e[4]] + t)));
    LiteralPair('u', [e[1]] + ([e[2]] + ([e[3]] + ([e[4]] + t))));
    assert ['\\'] + e + t == ['\\', 'u'] + ([e[1]] + ([e[2]] + ([e[3]] + ([e[4]] + t))));
  }

  lemma LiteralPair(c: char, t: string)
    ensures LiteralEnd(['\\', c] + t) == match LiteralEnd(t) { case Some(n) => Some(n + 2) case None => None }
  {
    assert (['\\', c] + t)[2..] == t;
  }

  lemma LiteralPlain(c: char, t: string)
    requires c != '\"' && c != '\\'
    ensures LiteralEnd([c] + t) == match LiteralEnd(t) { case Some(n) => Some(n + 1) case None => None }
  {
    assert ([c] + t)[1..] == t;
  }

  lemma {:induction false} LiteralText(s: string, rest: string)
    ensures LiteralEnd(Escape(s) + (['\"'] + rest)) == Some(|Escape(s)| + 1)
    decreases |s|
  {
    hide EscapeChar;
    if s == [] {
      assert Escape(s) + (['\"'] + rest) == ['\"'] + rest;
    } else {
      var tail := Escape(s[1..]) + (['\"'] + rest);
      assert Escape(s) + (['\"'] + rest) == EscapeChar(s[0]) + tail;
      LiteralUnit(s[0], tail);
      LiteralText(s[1..], rest);
    }
  }

  /** String literals are kept as they are. */
  lemma ReducesQuote(s: string)
    ensures Reduces(Quote(s), Quote(s))
  {
    hide Minify, Quote, Prepend;
    forall rest: string ensures Minify(Quote(s) + rest) == Prepend(Quote(s), Minify(rest)) {
      QuoteAt(s, rest);
    }
  }

  lemma QuoteAt(s: string, rest: string)
    ensures Minify(Quote(s) + rest) == Prepend(Quote(s), Minify(rest))
  {
    hide Escape, LiteralEnd, Minify, Prepend;
    var t := Quote(s) + rest;
    assert t[1..] == Escape(s) + (['\"'] + rest);
    LiteralText(s, rest);
    assert t[..|Quote(s)|] == Quote(s) && t[|Quote(s)|..] == rest;
    MinifyLiteral(t, |Escape(s)| + 1);
  }

  lemma MinifyLiteral(t: string, n: nat)
    requires t != [] && t[0] == '\"' && LiteralEnd(t[1..]) == Some(n)
    ensures Minify(t) == Prepend(t[..n + 1], Minify(t[n + 1..]))
  {
    hide LiteralEnd;
  }

  lemma Layout(n: int)
    ensures Reduces(When(true, "\n"), []) && Reduces(When(true, " "), []) && Reduces(When(true, "\t"), [])
    ensures Reduces(When(true, Tabs(n)), []) && Reduces(When(true, ['\n'] + Tabs(n)), [])
  {
    hide Reduces, Tabs;
    ReducesWhite('\n');
    ReducesWhite(' ');
    ReducesWhite('\t');
    ReducesTabs(n);
    ReducesConcat(['\n'], [], Tabs(n), []);
    assert "" + "" == "";
  }

  lemma Marks()
    ensures Reduces(['['], ['[']) && Reduces([']'], [']']) && Reduces(['{'], ['{']) && Reduces(['}'], ['}'])
    ensures Reduces([','], [',']) && Reduces([':'], [':'])
  {
    hide Reduces;
    ReducesPlain('[');
    ReducesPlain(']');
    ReducesPlain('{');
    ReducesPlain('}');
    ReducesPlain(',');
    ReducesPlain(':');
  }

  /** Formatted text is minified to unformatted text. */
  lemma {:induction false} ReducesTree(j: Json, depth: nat)
    requires Printable(j)
    ensures Reduces(Text(j, depth, true), Text(j, depth, false))
    decreases j, 1
  {
    hide Reduces, Decimal, Quote, ItemsText, MembersText, Tabs;
    match j
    case Null => ReducesPlainText("null");
    case False => ReducesPlainText("false");
    case True => ReducesPlainText("true");
    case Number(n) => ReducesNumber(n.Floor);
    case Str(s) => ReducesQuote(s);
    case Arr(items) =>
      Marks();
      if items == [] {
        ReducesPlainText("[]");
      } else {
        var a, b := ItemsText(items, depth + 1, true), ItemsText(items, depth + 1, false);
        ReducesItems(items, depth + 1);
        ReducesConcat(a, b, [']'], [']']);
        ReducesConcat(['['], ['['], a + [']'], b + [']']);
      }
    case Obj(members) => ReducesObject(members, depth);
  }

  lemma ReducesNumber(n: int)
    ensures Reduces(IntText(n), IntText(n))
  {
    hide Reduces, Decimal;
    ReducesPlainText(IntText(n));
  }

  lemma {:induction false} ReducesItems(items: seq<Json>, depth: nat)
    requires forall x :: x in items ==> Printable(x)
    ensures Reduces(ItemsText(items, depth, true), ItemsText(items, depth, false))
    decreases items, 0
  {
    hide Reduces, Text, Printable;
    if items == [] {
      ReducesNone();
    } else {
      ReducesTree(items[0], depth);
      if |items| > 1 {
        ReducesItems(items[1..], depth);
        Marks();
        Layout(0);
        var a, b := ItemsText(items[1..], depth, true), ItemsText(items[1..], depth, false);
        ReducesConcat(" ", [], a, b);
        ReducesConcat([','], [','], " " + a, [] + b);
        ReducesConcat(Text(items[0], depth, true), Text(items[0], depth, false), [','] + (" " + a), [','] + ([] + b));
      }
    }
  }

  lemma {:induction false} ReducesObject(members: seq<Member>, depth: nat)
    requires Printable(Obj(members))
    ensures Reduces(Text(Obj(members), depth, true), Text(Obj(members), depth, false))
    decreases members, 2
  {
    hide Reduces, MembersText, Tabs;
    Marks();
    if members == [] {
      Layout(depth - 1);
      var gap := ['\n'] + Tabs(depth - 1);
      ReducesConcat(gap, [], ['}'], ['}']);
      ReducesConcat(['{'], ['{'], gap + ['}'], [] + ['}']);
    } else {
      Layout(depth);
      ReducesMembers(members, depth + 1);
      var a, b, gap := MembersText(members, depth + 1, true), MembersText(members, depth + 1, false), Tabs(depth);
      ReducesConcat(gap, [], ['}'], ['}']);
      ReducesConcat(a, b, gap + ['}'], [] + ['}']);
      ReducesConcat("\n", [], a + (gap + ['}']), b + ([] + ['}']));
      ReducesConcat(['{'], ['{'], "\n" + (a + (gap + ['}'])), [] + (b + ([] + ['}'])));
    }
  }

  lemma {:induction false} ReducesMembers(members: seq<Member>, depth: nat)
    requires forall m: Member :: m in members ==> NulFree(m.name) && Printable(m.value)
    ensures Reduces(MembersText(members, depth, true), MembersText(members, depth, false))
    decreases members, 1
  {
    hide Reduces, Text, Tabs, Quote, Printable;
    if members == [] {
      ReducesNone();
    } else {
      var m := members[0];
      var a, b := MembersText(members[1..], depth, true), MembersText(members[1..], depth, false);
      var t, u, comma, name, gap := Text(m.value, depth, true), Text(m.value, depth, false), Comma(|members| > 1), Quote(m.name), Tabs(depth);
      ReducesMembers(members[1..], depth);
      ReducesTree(m.value, depth);
      ReducesQuote(m.name);
      Marks();
      Layout(depth);
      ReducesNone();
      ReducesConcat("\n", [], a, b);
      ReducesConcat(comma, comma, "\n" + a, [] + b);
      ReducesConcat(t, u, comma + ("\n" + a), comma + ([] + b));
      ReducesConcat("\t", [], t + (comma + ("\n" + a)), u + (comma + ([] + b)));
      ReducesConcat([':'], [':'], "\t" + (t + (comma + ("\n" + a))), [] + (u + (comma + ([] + b))));
      ReducesConcat(name, name, [':'] + ("\t" + (t + (comma + ("\n" + a)))), [':'] + ([] + (u + (comma + ([] + b)))));
      ReducesConcat(gap, [], name + ([':'] + ("\t" + (t + (comma + ("\n" + a))))), name + ([':'] + ([] + (u + (comma + ([] + b))))));
    }
  }

  /** Minifying the formatted print of a tree gives exactly its unformatted print. */
  lemma MinifyFormatted(j: Json)
    requires Printable(j)
    ensures Minify(Text(j, 0, true)) == Some(Text(j, 0, false))
  {
    hide Text, Reduces;
    ReducesTree(j, 0);
    var t := Text(j, 0, true);
    assert t + [] == t;
    ReducesAt(t, Text(j, 0, false), []);
    assert Text(j, 0, false) + [] == Text(j, 0, false);
  }

  // ---------- in place ----------

  /** Reading has reached json and writing into; the unread part is untouched, and what is written
    * followed by minifying the unread part is minifying the whole. */
  ghost predicate Progress(s: string, buf: seq<char>, json: nat, into: nat) {
    && into <= json <= |s| < |buf|
    && buf[json..|s|] == s[json..] && buf[|s|] == NUL
    && Minify(s) == Prepend(buf[..into], Minify(s[json..]))
  }

  lemma ProgressStart(s: string, buf: seq<char>)
    requires Holds(buf, s)
    ensures Progress(s, buf, 0, 0)
  {
    hide Minify;
    assert s[0..] == s && buf[0..|s|] == s;
    PrependTwice([], [], Minify(s));
  }

  /** Dropping everything up to position k. */
  lemma ProgressDrop(s: string, buf: seq<char>, json: nat, into: nat, k: nat)
    requires Progress(s, buf, json, into) && json <= k <= |s| && Minify(s[json..]) == Minify(s[k..])
    ensures Progress(s, buf, k, into)
  {
    hide Minify;
    assert buf[k..|s|] == buf[json..|s|][k - json..] && s[k..] == s[json..][k - json..];
  }

  /** Copying everything up to position k. */
  lemma ProgressCopy(s: string, was: seq<char>, now: seq<char>, json: nat, into: nat, k: nat)
    requires Progress(s, was, json, into) && json <= k <= |s| && |now| == |was|
    requires now[..into] == was[..into] && now[into..into + (k - json)] == s[json..k] && now[k..] == was[k..]
    requires Minify(s[json..]) == Prepend(s[json..k], Minify(s[k..]))
    ensures Progress(s, now, k, into + (k - json))
  {
    hide Minify;
    var m := into + (k - json);
    assert now[..m] == was[..into] + s[json..k];
    PrependTwice(was[..into], s[json..k], Minify(s[k..]));
    assert now[k..|s|] == was[k..|s|] by { assert now[k..][..|s| - k] == was[k..][..|s| - k]; }
    assert was[k..|s|] == was[json..|s|][k - json..] && s[k..] == s[json..][k - json..];
    assert now[|s|] == now[k..][|s| - k] == was[k..][|s| - k];
  }

  lemma ProgressAt(s: string, buf: seq<char>, json: nat, into: nat, k: nat)
    requires Progress(s, buf, json, into) && json <= k <= |s|
    ensures k < |s| ==> buf[k] == s[k]
    ensures k == |s| ==> buf[k] == NUL
  {
    if k < |s| { assert buf[json..|s|][k - json] == s[json..][k - json]; }
  }

  lemma ProgressEnd(s: string, buf: seq<char>, json: nat, into: nat)
    requires Progress(s, buf, json, into) && json == |s|
    ensures Minify(s) == Some(buf[..into])
  {
    assert s[json..] == [];
    assert buf[..into] + [] == buf[..into];
  }

  // ---------- one token in place ----------

  lemma StepWhite(t: string)
    requires t != [] && IsWhite(t[0])
    ensures Minify(t) == Minify(t[1..])
  {
  }

  lemma StepPlain(t: string)
    requires t != [] && !IsWhite(t[0]) && t[0] != '\"'
    requires t[0] == '/' && |t| >= 2 ==> t[1] != '/' && t[1] != '*'
    ensures Minify(t) == Prepend(t[..1], Minify(t[1..]))
  {
  }

  lemma StepLine(t: string)
    requires |t| >= 2 && t[0] == '/' && t[1] == '/'
    ensures Minify(t) == Minify(AfterLine(t[1..])) && AfterLine(t) == AfterLine(t[1..])
  {
  }

  lemma StepBlock(t: string)
    requires |t| >= 2 && t[0] == '/' && t[1] == '*'
    ensures AfterBlock(t) == AfterBlock(t[1..])
    ensures AfterBlock(t).None? ==> Minify(t).None?
    ensures AfterBlock(t).Some? ==> Minify(t) == Minify(AfterBlock(t).value)
  {
  }

  lemma StepLiteral(t: string)
    requires t != [] && t[0] == '\"'
    ensures LiteralEnd(t[1..]).None? ==> Minify(t).None?
  {
  }

  lemma PrependSome(x: string, r: Option<string>)
    ensures Prepend(x, r).Some? ==> r.Some?
  {
  }

  lemma Unread(s: string, buf: seq<char>, json: nat, into: nat, k: nat)
    requires Progress(s, buf, json, into) && json <= k < |s| && NulFree(s)
    ensures buf[k] == s[k] != NUL
    ensures buf[k + 1] == if k + 1 < |s| then s[k + 1] else NUL
    ensures k + 1 == |s| ==> buf[k + 1] != '/' && buf[k + 1] != '*'
  {
    hide Minify;
    ProgressAt(s, buf, json, into, k);
    ProgressAt(s, buf, json, into, k + 1);
  }

  lemma LineNext(s: string, k: nat)
    requires k < |s| && s[k] != '\n'
    ensures AfterLine(s[k..]) == AfterLine(s[k + 1..])
  {
    assert s[k..][1..] == s[k + 1..];
  }

  lemma LineStop(s: string, k: nat)
    requires k <= |s| && (k < |s| ==> s[k] == '\n')
    ensures AfterLine(s[k..]) == s[k..]
  {
  }

  /** A double-slash comment, up to its newline or the end of the text. */
  method SkipLine(buf: array<char>, ghost s: string, json: nat, ghost into: nat) returns (k: nat)
    requires |s| < buf.Length && Progress(s, buf[..], json, into) && NulFree(s) && json <= |s|
    ensures json <= k <= |s| && s[k..] == AfterLine(s[json..])
  {
    hide *;
    k := json;
    ProgressAt(s, buf[..], json, into, k);
    while buf[k] != NUL && buf[k] != '\n'
      invariant json <= k <= |s| < buf.Length
      invariant k < |s| ==> buf[k] == s[k]
      invariant k == |s| ==> buf[k] == NUL
      invariant AfterLine(s[k..]) == AfterLine(s[json..])
      decreases |s| - k
    {
      LineNext(s, k);
      k := k + 1;
      ProgressAt(s, buf[..], json, into, k);
    }
    NotNul(s, k);
    LineStop(s, k);
  }

  lemma NotNul(s: string, k: nat)
    requires NulFree(s)
    ensures k < |s| ==> s[k] != NUL
  {
  }

  lemma BlockNext(s: string, k: nat)
    requires k < |s|
    ensures s[k] == '*' && k + 1 < |s| && s[k + 1] == '/' ==> AfterBlock(s[k..]) == Some(s[k + 2..])
    ensures !(s[k] == '*' && k + 1 < |s| && s[k + 1] == '/') ==> AfterBlock(s[k..]) == AfterBlock(s[k + 1..])
  {
    assert s[k..][1..] == s[k + 1..];
    if k + 2 <= |s| { assert s[k..][2..] == s[k + 2..]; }
  }

  lemma BlockOpen(s: string, k: nat)
    requires k <= |s| && AfterBlock(s[k..]).Some?
    ensures k < |s|
  {
  }

  /** A block comment, past its closing mark. */
  method SkipBlock(buf: array<char>, ghost s: string, json: nat, ghost into: nat) returns (k: nat)
    requires |s| < buf.Length && Progress(s, buf[..], json, into) && NulFree(s) && json < |s|
    requires AfterBlock(s[json..]).Some?
    ensures json < k <= |s| && Some(s[k..]) == AfterBlock(s[json..])
  {
    hide *;
    k := json;
    Unread(s, buf[..], json, into, k);
    while buf[k] != NUL && !(buf[k] == '*' && buf[k + 1] == '/')
      invariant json <= k < |s| < buf.Length
      invariant buf[k] == s[k] && s[k] != NUL
      invariant buf[k + 1] == if k + 1 < |s| then s[k + 1] else NUL
      invariant AfterBlock(s[k..]) == AfterBlock(s[json..])
      decreases |s| - k
    {
      BlockNext(s, k);
      k := k + 1;
      BlockOpen(s, k);
      Unread(s, buf[..], json, into, k);
    }
    BlockNext(s, k);
    k := k + 2;
  }

  /** The text from json0 up to json stands at into0, and nothing from json on has changed. */
  ghost predicate Copied(s: string, was: seq<char>, now: seq<char>, json0: nat, into0: nat, json: nat, into: nat) {
    && into0 <= json0 <= json <= |s| < |was| == |now|
    && into - into0 == json - json0
    && now[..into0] == was[..into0] && now[into0..into] == s[json0..json] && now[json..] == was[json..]
  }

  method CopyOne(buf: array<char>, json: nat, into: nat) returns (json': nat, into': nat)
    requires into <= json < buf.Length
    modifies buf
    ensures json' == json + 1 && into' == into + 1
    ensures buf[..] == old(buf[..])[into := old(buf[json])]
  {
    buf[into] := buf[json];
    json', into' := json + 1, into + 1;
  }

  lemma CopiedNone(s: string, was: seq<char>, json: nat, into: nat)
    requires into <= json <= |s| < |was|
    ensures Copied(s, was, was, json, into, json, into)
  {
  }

  lemma CopiedOne(s: string, was: seq<char>, now: seq<char>, json0: nat, into0: nat, json: nat, into: nat)
    requires Copied(s, was, now, json0, into0, json, into) && Progress(s, was, json0, into0) && json < |s|
    ensures into <= json && now[json] == s[json]
    ensures Copied(s, was, now[into := now[json]], json0, into0, json + 1, into + 1)
  {
    hide Minify;
    ProgressAt(s, was, json0, into0, json);
    assert now[json] == now[json..][0] == was[json];
    var next := now[into := now[json]];
    assert next[into0..into + 1] == now[into0..into] + [s[json]];
    assert s[json0..json + 1] == s[json0..json] + [s[json]];
    assert now[json..][1..] == was[json..][1..];
    assert next[..into0] == now[..into0];
  }

  lemma CopiedAt(s: string, was: seq<char>, now: seq<char>, json0: nat, into0: nat, json: nat, into: nat)
    requires Copied(s, was, now, json0, into0, json, into) && Progress(s, was, json0, into0)
    ensures into <= json < |now| && now[json] == if json < |s| then s[json] else NUL
  {
    hide Minify;
    ProgressAt(s, was, json0, into0, json);
    assert now[json] == now[json..][0] == was[json];
  }

  lemma CopiedEnd(s: string, was: seq<char>, now: seq<char>, json0: nat, into0: nat, json: nat, into: nat)
    requires Copied(s, was, now, json0, into0, json, into) && Progress(s, was, json0, into0)
    requires Minify(s[json0..]) == Prepend(s[json0..json], Minify(s[json..]))
    ensures Progress(s, now, json, into)
  {
    hide Minify, Prepend, Progress;
    ProgressCopy(s, was, now, json0, into0, json);
  }

  /** What is left of a string literal whose opening quotation mark is at json0. */
  ghost predicate Inside(s: string, json0: nat, json: nat) {
    && json0 < json <= |s| && LiteralEnd(s[json0 + 1..]).Some? && LiteralEnd(s[json..]).Some?
    && json + LiteralEnd(s[json..]).value == json0 + 1 + LiteralEnd(s[json0 + 1..]).value
  }

  lemma InsideNext(s: string, json0: nat, json: nat)
    requires Inside(s, json0, json)
    ensures json < |s|
    ensures s[json] == '\\' ==> json + 2 <= |s| && Inside(s, json0, json + 2)
    ensures s[json] != '\\' && s[json] != '\"' ==> Inside(s, json0, json + 1)
    ensures s[json] == '\"' ==> json + 1 == json0 + 1 + LiteralEnd(s[json0 + 1..]).value
  {
    assert s[json..][1..] == s[json + 1..];
    if json + 2 <= |s| { assert s[json..][2..] == s[json + 2..]; }
  }

  lemma InsideEnd(s: string, json0: nat, json: nat)
    requires json0 < json <= |s| && s[json0] == '\"'
    requires LiteralEnd(s[json0 + 1..]) == Some(json - (json0 + 1))
    ensures Minify(s[json0..]) == Prepend(s[json0..json], Minify(s[json..]))
  {
    hide LiteralEnd, Minify;
    assert s[json0..][1..] == s[json0 + 1..];
    MinifyLiteral(s[json0..], json - (json0 + 1));
    assert s[json0..][..json - json0] == s[json0..json] && s[json0..][json - json0..] == s[json..];
  }

  lemma InsideStart(s: string, json0: nat)
    requires json0 < |s| && s[json0] == '\"' && LiteralEnd(s[json0 + 1..]).Some?
    ensures Inside(s, json0, json0 + 1)
  {
  }

  /** A string literal is copied whole; a backslash takes the next character with it. */
  method CopyLiteral(buf: array<char>, ghost s: string, json0: nat, into0: nat) returns (json: nat, into: nat)
    requires |s| < buf.Length && Progress(s, buf[..], json0, into0) && NulFree(s) && into0 <= json0 < |s|
    requires s[json0] == '\"' && LiteralEnd(s[json0 + 1..]).Some?
    modifies buf
    ensures json0 < json <= |s| && Progress(s, buf[..], json, into)
    ensures Minify(s[json0..]) == Prepend(s[json0..json], Minify(s[json..]))
  {
    hide *;
    ghost var was := buf[..];
    json, into := json0, into0;
    CopiedNone(s, was, json, into);
    CopiedOne(s, was, buf[..], json0, into0, json, into);
    json, into := CopyOne(buf, json, into);
    InsideStart(s, json0);
    CopiedAt(s, was, buf[..], json0, into0, json, into);
    InsideNext(s, json0, json);
    while buf[json] != NUL && buf[json] != '\"'
      invariant json0 < json < |s| < buf.Length && into <= json
      invariant Copied(s, was, buf[..], json0, into0, json, into)
      invariant Inside(s, json0, json)
      invariant buf[json] == s[json]
      decreases |s| - json
    {
      InsideNext(s, json0, json);
      if buf[json] == '\\' {
        CopiedOne(s, was, buf[..], json0, into0, json, into);
        json, into := CopyOne(buf, json, into);
      }
      CopiedOne(s, was, buf[..], json0, into0, json, into);
      json, into := CopyOne(buf, json, into);
      InsideNext(s, json0, json);
      CopiedAt(s, was, buf[..], json0, into0, json, into);
    }
    NotNul(s, json);
    InsideNext(s, json0, json);
    CopiedOne(s, was, buf[..], json0, into0, json, into);
    json, into := CopyOne(buf, json, into);
    InsideEnd(s, json0, json);
    CopiedEnd(s, was, buf[..], json0, into0, json, into);
  }

  /** One step of cJSON_Minify: a blank, a comment, a string literal or one other character. */
  method MinifyStep(buf: array<char>, ghost s: string, json: nat, into: nat) returns (json': nat, into': nat)
    requires |s| < buf.Length && Progress(s, buf[..], json, into) && NulFree(s) && into <= json < |s|
    requires Minify(s[json..]).Some?
    modifies buf
    ensures json < json' <= |s| && Progress(s, buf[..], json', into')
    ensures Minify(s[json'..]).Some?
  {
    hide *;
    ghost var was, t := buf[..], s[json..];
    Unread(s, was, json, into, json);
    json', into' := json, into;
    if buf[json] == ' ' || buf[json] == '\t' || buf[json] == '\r' || buf[json] == '\n' {
      White(t[0]);
      StepWhite(t);
      Rest(s, json);
      json' := json + 1;
      ProgressDrop(s, was, json, into, json');
    } else if buf[json] == '/' && buf[json + 1] == '/' {
      StepLine(t);
      json' := SkipLine(buf, s, json, into);
      LineStart(s, json, json');
      ProgressDrop(s, was, json, into, json');
    } else if buf[json] == '/' && buf[json + 1] == '*' {
      StepBlock(t);
      json' := SkipBlock(buf, s, json, into);
      ProgressDrop(s, was, json, into, json');
    } else if buf[json] == '\"' {
      StepLiteral(t);
      Rest(s, json);
      json', into' := CopyLiteral(buf, s, json, into);
      PrependSome(s[json..json'], Minify(s[json'..]));
    } else {
      White(t[0]);
      StepPlain(t);
      Rest(s, json);
      CopiedNone(s, was, json, into);
      CopiedOne(s, was, was, json, into, json, into);
      json', into' := CopyOne(buf, json, into);
      CopiedEnd(s, was, buf[..], json, into, json', into');
      PrependSome(s[json..json'], Minify(s[json'..]));
    }
  }

  lemma White(c: char)
    ensures IsWhite(c) <==> c == ' ' || c == '\t' || c == '\r' || c == '\n'
  {
  }

  lemma Rest(s: string, json: nat)
    requires json < |s|
    ensures s[json..][1..] == s[json + 1..] && s[json..][..1] == s[json..json + 1]
  {
  }

  lemma LineStart(s: string, json: nat, k: nat)
    requires json <= k <= |s| && json < |s| && s[json] == '/' && s[k..] == AfterLine(s[json..])
    ensures json < k
  {
  }

  lemma {:induction false} MinifyNulFree(s: string)
    requires NulFree(s) && Minify(s).Some?
    ensures NulFree(Minify(s).value)
    decreases |s|
  {
    hide AfterLine, AfterBlock, LiteralEnd;
    if s == [] {
    } else if IsWhite(s[0]) {
      MinifyNulFree(s[1..]);
    } else if s[0] == '/' && |s| >= 2 && s[1] == '/' {
      AfterLineSuffix(s[1..]);
      MinifyNulFree(AfterLine(s[1..]));
    } else if s[0] == '/' && |s| >= 2 && s[1] == '*' {
      AfterBlockSuffix(s[1..]);
      MinifyNulFree(AfterBlock(s[1..]).value);
    } else if s[0] == '\"' {
      var n := LiteralEnd(s[1..]).value;
      MinifyNulFree(s[n + 1..]);
    } else {
      MinifyNulFree(s[1..]);
    }
  }

  lemma AfterLineSuffix(s: string)
    requires NulFree(s)
    ensures NulFree(AfterLine(s))
  {
  }

  lemma AfterBlockSuffix(s: string)
    requires NulFree(s) && AfterBlock(s).Some?
    ensures NulFree(AfterBlock(s).value)
  {
  }

  lemma HoldsAt(buf: seq<char>, s: string)
    requires Holds(buf, s)
    ensures NulFree(s) && |s| < |buf| && buf[0] == if s == [] then NUL else s[0]
  {
    if s != [] { assert buf[..|s|][0] == s[0]; }
  }

  lemma Terminated(was: seq<char>, now: seq<char>, s: string, into: nat)
    requires into <= |s| < |was| && now == was[into := NUL] && NulFree(s) && Minify(s) == Some(was[..into])
    ensures Holds(now, Minify(s).value)
  {
    MinifyNulFree(s);
    assert now[..into] == was[..into];
  }

  /** cJSON_Minify. The write position never passes the read position. */
  method MinifyInPlace(buf: array<char>, ghost s: string)
    requires Holds(buf[..], s) && Minify(s).Some?
    modifies buf
    ensures |Minify(s).value| <= |s|
    ensures Holds(buf[..], Minify(s).value)
  {
    hide *;
    var json: nat, into: nat := 0, 0;
    HoldsAt(buf[..], s);
    ProgressStart(s, buf[..]);
    assert s[0..] == s;
    while buf[json] != NUL
      invariant into <= json <= |s| < buf.Length
      invariant Progress(s, buf[..], json, into)
      invariant Minify(s[json..]).Some?
      invariant buf[json] == if json < |s| then s[json] else NUL
      decreases |s| - json
    {
      json, into := MinifyStep(buf, s, json, into);
      Ahead(s, buf[..], json, into);
      ProgressAt(s, buf[..], json, into, json);
    }
    NotNul(s, json);
    ProgressEnd(s, buf[..], json, into);
    ghost var was := buf[..];
    buf[into] := NUL;
    Terminated(was, buf[..], s, into);
  }

  lemma Ahead(s: string, buf: seq<char>, json: nat, into: nat)
    requires Progress(s, buf, json, into)
    ensures into <= json <= |s| < |buf|
  {
  }
}
