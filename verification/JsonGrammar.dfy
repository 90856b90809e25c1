/** What the parser accepts, as a grammar over the characters of the text: which stretches of a text spell
  * which tree. */
module JsonGrammar {
  import opened Options
  import opened Texts
  import opened JsonText
  import opened JsonParse
  import opened JsonRoundTrip
  import opened JsonBuffers
  import opened JsonReader
  import opened JsonMeaning

  // ---------- numbers ----------

  predicate Digits(s: string, i: nat, j: nat) {
    i <= j && forall k :: i <= k < j ==> '0' <= At(s, k) <= '9'
  }

  predicate DigitAt(s: string, i: nat) {
    '0' <= At(s, i) <= '9'
  }

  /** The value of the digits from i to j. */
  function DigitsValue(s: string, i: nat, j: nat): nat
    requires Digits(s, i, j)
  {
    if j <= i then 0 else DigitsValue(s, i, j - 1) * 10 + (At(s, j - 1) as int - '0' as int)
  }

  function TenTo(k: nat): (t: nat)
    ensures t > 0
  {
    if k == 0 then 1 else TenTo(k - 1) * 10
  }

  /** An optional zero and then, unless another zero follows, all digits there are. */
  predicate IntegerSpells(s: string, a: nat, b: nat) {
    && Digits(s, a, b)
    && (b == a ==> !DigitAt(s, a))
    && (b == a + 1 && At(s, a) == '0' ==> !('1' <= At(s, b) <= '9'))
    && (b > a && !(b == a + 1 && At(s, a) == '0') ==> !DigitAt(s, b))
    && (b > a + 1 && At(s, a) == '0' ==> At(s, a + 1) != '0')
  }

  /** A point with all digits behind it, or nothing. */
  predicate FractionSpells(s: string, b: nat, c: nat) {
    if c == b then !(At(s, b) == '.' && DigitAt(s, b + 1))
    else c > b + 1 && At(s, b) == '.' && Digits(s, b + 1, c) && !DigitAt(s, c)
  }

  /** The mark of an exponent, an optional sign and all digits behind it, perhaps none, or nothing. */
  predicate ExponentSpells(s: string, c: nat, e: nat, x: int) {
    if At(s, c) != 'e' && At(s, c) != 'E' then e == c && x == 0
    else
      var d := if At(s, c + 1) == '+' || At(s, c + 1) == '-' then c + 2 else c + 1;
      Digits(s, d, e) && !DigitAt(s, e) && x == if At(s, c + 1) == '-' then 0 - DigitsValue(s, d, e) else DigitsValue(s, d, e)
  }

  /** The number with integer part up to b, fraction up to c and exponent x. */
  function NumberValue(s: string, a: nat, b: nat, c: nat, x: int): real
    requires Digits(s, a, b) && (c > b ==> Digits(s, b + 1, c))
  {
    var n := DigitsValue(s, a, b) as real + if c > b then DigitsValue(s, b + 1, c) as real / TenTo(c - b - 1) as real else 0.0;
    if x >= 0 then n * TenTo(x) as real else n / TenTo(-x) as real
  }

  ghost predicate NumberParts(s: string, i: nat, e: nat, n: real, a: nat, b: nat, c: nat, x: int) {
    && a == (if At(s, i) == '-' then i + 1 else i)
    && IntegerSpells(s, a, b) && (b == c || b < c) && FractionSpells(s, b, c) && ExponentSpells(s, c, e, x)
    && n == if At(s, i) == '-' then -NumberValue(s, a, b, c, x) else NumberValue(s, a, b, c, x)
  }

  ghost predicate NumberSpells(s: string, i: nat, e: nat, n: real) {
    exists a: nat, b: nat, c: nat, x: int :: NumberParts(s, i, e, n, a, b, c, x)
  }

  lemma DigitsNext(s: string, i: nat, j: nat)
    requires DigitAt(s, i) && Digits(s, i + 1, j)
    ensures Digits(s, i, j) && j > i
    ensures DigitsValue(s, i, j) == (At(s, i) as int - '0' as int) * TenTo(j - i - 1) + DigitsValue(s, i + 1, j)
    ensures TenTo(j - i) == TenTo(j - i - 1) * 10
  {
    hide At, DigitsValue;
    DigitsFront(s, i, j);
  }

  lemma NoDigits(s: string, i: nat)
    ensures Digits(s, i, i) && DigitsValue(s, i, i) == 0 && TenTo(0) == 1
  {
  }

  lemma {:induction false} RunSpells(s: string, i: nat, n: real)
    ensures var (v, j) := Run(s, i, n);
      Digits(s, i, j) && !DigitAt(s, j) && v == n * TenTo(j - i) as real + DigitsValue(s, i, j) as real
    decreases |s| - i
  {
    hide At, Run, TenTo, DigitsValue, Digits;
    RunNext(s, i, n);
    if IsDigit(At(s, i)) {
      var d := At(s, i) as int - '0' as int;
      RunSpells(s, i + 1, n * 10.0 + d as real);
      var j := Run(s, i, n).1;
      DigitsNext(s, i, j);
      Shift(n, d, TenTo(j - i - 1));
    } else {
      NoDigits(s, i);
    }
  }

  lemma Shift(n: real, d: int, t: int)
    ensures (n * 10.0 + d as real) * t as real == n * (t * 10) as real + (d * t) as real
  {
    var u := t as real;
    assert (t * 10) as real == u * 10.0;
    assert (d * t) as real == d as real * u;
  }

  lemma {:induction false} DigitsFront(s: string, i: nat, j: nat)
    requires i < j && Digits(s, i, j)
    ensures Digits(s, i + 1, j)
    ensures DigitsValue(s, i, j) == (At(s, i) as int - '0' as int) * TenTo(j - i - 1) + DigitsValue(s, i + 1, j)
    decreases j
  {
    hide At;
    if j > i + 1 {
      DigitsFront(s, i, j - 1);
      var d := At(s, i) as int - '0' as int;
      assert TenTo(j - i - 1) == TenTo(j - i - 2) * 10;
      assert (d * TenTo(j - i - 2)) * 10 == d * (TenTo(j - i - 2) * 10);
    } else {
      assert DigitsValue(s, i, i) == 0;
    }
  }

  lemma {:induction false} IntRunSpells(s: string, i: nat, n: nat)
    ensures var (v, j) := IntRun(s, i, n);
      Digits(s, i, j) && !DigitAt(s, j) && v == n * TenTo(j - i) + DigitsValue(s, i, j)
    decreases |s| - i
  {
    hide At, IntRun, TenTo, DigitsValue, Digits;
    IntRunNext(s, i, n);
    if IsDigit(At(s, i)) {
      var d := At(s, i) as int - '0' as int;
      IntRunSpells(s, i + 1, n * 10 + d);
      var j := IntRun(s, i, n).1;
      DigitsNext(s, i, j);
      ShiftWhole(n, d, TenTo(j - i - 1));
    } else {
      NoDigits(s, i);
    }
  }

  lemma ShiftWhole(n: int, d: int, t: int)
    ensures (n * 10 + d) * t == n * (t * 10) + d * t
  {
  }

  lemma IntegerIs(s: string, a: nat)
    ensures var (v, b) := IntegerPart(s, a); IntegerSpells(s, a, b) && v == DigitsValue(s, a, b) as real
  {
    hide At, Run;
    var j := if At(s, a) == '0' then a + 1 else a;
    if '1' <= At(s, j) <= '9' {
      RunSpells(s, j, 0.0);
      RunNext(s, j, 0.0);
      var b := Run(s, j, 0.0).1;
      Zero(TenTo(b - j));
      if j > a { DigitsFront(s, a, b); }
    } else {
      assert DigitsValue(s, a, a) == 0;
    }
  }

  lemma Zero(t: int)
    ensures 0.0 * t as real == 0.0
  {
  }

  lemma IntegerEnd(s: string, a: nat, b: nat, c: nat)
    requires IntegerSpells(s, a, b) && IntegerSpells(s, a, c)
    ensures b == c
  {
    hide At;
  }

  lemma FractionIs(s: string, b: nat, n: real)
    ensures var (v, c) := Fraction(s, b, n);
      && FractionSpells(s, b, c)
      && v == if c > b then n * TenTo(c - b - 1) as real + DigitsValue(s, b + 1, c) as real else n
  {
    hide At, Run, TenTo, DigitsValue;
    RunSpells(s, b + 1, n);
    RunNext(s, b + 1, n);
  }

  lemma FractionEnd(s: string, b: nat, c: nat, d: nat)
    requires FractionSpells(s, b, c) && FractionSpells(s, b, d) && c >= b && d >= b
    ensures c == d
  {
    hide At;
  }

  lemma ExponentIs(s: string, c: nat)
    ensures var (x, e) := Exponent(s, c); ExponentSpells(s, c, e, x)
  {
    hide At, IntRun, TenTo, DigitsValue, Digits;
    IntRunSpells(s, c + 1, 0);
    IntRunSpells(s, c + 2, 0);
  }

  lemma ExponentEnd(s: string, c: nat, e: nat, x: int, f: nat, y: int)
    requires ExponentSpells(s, c, e, x) && ExponentSpells(s, c, f, y)
    ensures e == f && x == y
  {
    hide At, DigitsValue;
  }

  lemma TenTimes(y: int)
    ensures PowerOfTen(y) * 10.0 == PowerOfTen(y + 1)
  {
  }

  /** Ten to the x. */
  function Scale(x: int): real {
    if x >= 0 then TenTo(x) as real else 1.0 / TenTo(-x) as real
  }

  lemma {:induction false} ScaleIs(x: int)
    ensures PowerOfTen(x) == Scale(x)
    decreases if x < 0 then -x else x
  {
    if x > 0 {
      ScaleIs(x - 1);
    } else if x < 0 {
      ScaleIs(x + 1);
      Inverse(TenTo(-x - 1), TenTo(-x));
    }
  }

  lemma Inverse(t: nat, u: nat)
    requires t > 0 && u == t * 10
    ensures 1.0 / u as real == (1.0 / t as real) / 10.0
  {
    var a := t as real;
    assert u as real == a * 10.0;
  }

  lemma {:induction false} ScaleSplit(x: int, k: nat)
    ensures PowerOfTen(x - k) * TenTo(k) as real == Scale(x)
    decreases k
  {
    hide PowerOfTen, Scale;
    if k == 0 {
      ScaleIs(x);
    } else {
      ScaleSplit(x, k - 1);
      TenTimes(x - k);
      Regroup(PowerOfTen(x - k), TenTo(k - 1), TenTo(k));
    }
  }

  lemma Regroup(p: real, t: nat, u: nat)
    requires u == t * 10
    ensures p * u as real == (p * 10.0) * t as real
  {
    assert u as real == 10.0 * t as real;
  }

  lemma Distribute(i: real, f: real, t: real, p: real, r: real)
    requires t > 0.0 && p * t == r
    ensures (i * t + f) * p == (i + f / t) * r
  {
    assert f / t * t == f;
    assert (i + f / t) * t == i * t + f;
    assert (i + f / t) * (p * t) == ((i + f / t) * t) * p;
  }

  lemma NumberValueIs(s: string, a: nat, b: nat, c: nat, x: int)
    requires Digits(s, a, b) && (c > b ==> Digits(s, b + 1, c))
    ensures NumberValue(s, a, b, c, x) ==
            (DigitsValue(s, a, b) as real + if c > b then DigitsValue(s, b + 1, c) as real / TenTo(c - b - 1) as real else 0.0) * Scale(x)
  {
    hide Digits, DigitsValue, TenTo;
    if x < 0 {
      var n := DigitsValue(s, a, b) as real + if c > b then DigitsValue(s, b + 1, c) as real / TenTo(c - b - 1) as real else 0.0;
      Quotient(n, TenTo(-x) as real);
    }
  }

  lemma Quotient(n: real, t: real)
    requires t > 0.0
    ensures n / t == n * (1.0 / t)
  {
  }

  /** The unsigned number as the program computes it. */
  lemma Magnitude(s: string, a: nat, b: nat, c: nat, x: int, m: real)
    requires Digits(s, a, b) && b <= c && (c > b ==> Digits(s, b + 1, c))
    requires m == if c > b then DigitsValue(s, a, b) as real * TenTo(c - b - 1) as real + DigitsValue(s, b + 1, c) as real else DigitsValue(s, a, b) as real
    ensures m * PowerOfTen((if c > b then -(c - (b + 1)) else 0) + x) == NumberValue(s, a, b, c, x)
  {
    hide Digits, DigitsValue, TenTo, PowerOfTen, Scale, NumberValue;
    NumberValueIs(s, a, b, c, x);
    if c > b {
      var k := c - b - 1;
      ScaleSplit(x, k);
      Distribute(DigitsValue(s, a, b) as real, DigitsValue(s, b + 1, c) as real, TenTo(k) as real, PowerOfTen(x - k), Scale(x));
    } else {
      ScaleIs(x);
    }
  }

  lemma PartsDigits(s: string, a: nat, b: nat, c: nat)
    requires IntegerSpells(s, a, b) && b <= c && FractionSpells(s, b, c)
    ensures Digits(s, a, b) && (c > b ==> Digits(s, b + 1, c))
  {
    hide At;
  }

  /** The parts the parser finds are the parts of the number. */
  lemma NumberRead(s: string, i: nat) returns (a: nat, b: nat, c: nat, x: int)
    ensures NumberParts(s, i, NumberAt(s, i).1, NumberAt(s, i).0, a, b, c, x)
  {
    hide *;
    a := if At(s, i) == '-' then i + 1 else i;
    var (n1, second) := IntegerPart(s, a);
    var (n2, third) := Fraction(s, second, n1);
    var (y, end) := Exponent(s, third);
    b, c, x := second, third, y;
    IntegerIs(s, a);
    FractionIs(s, b, n1);
    ExponentIs(s, c);
    FractionForward(s, b, n1);
    PartsDigits(s, a, b, c);
    Magnitude(s, a, b, c, x, n2);
    var scale: int := if c > b then -(c - (b + 1)) else 0;
    NumberIs(s, i, a, n1, b, n2, c, scale, x, end);
    Negated(n2, PowerOfTen(scale + x));
    PartsIf(s, i, end, NumberAt(s, i).0, a, b, c, x);
  }

  lemma FractionForward(s: string, b: nat, n: real)
    ensures b <= Fraction(s, b, n).1
  {
    hide At, Run;
  }

  lemma Negated(n: real, p: real)
    ensures (-n) * p == -(n * p)
  {
  }

  lemma PartsIf(s: string, i: nat, e: nat, n: real, a: nat, b: nat, c: nat, x: int)
    requires a == (if At(s, i) == '-' then i + 1 else i)
    requires IntegerSpells(s, a, b) && b <= c && FractionSpells(s, b, c) && ExponentSpells(s, c, e, x)
    requires Digits(s, a, b) && (c > b ==> Digits(s, b + 1, c))
    requires n == if At(s, i) == '-' then -NumberValue(s, a, b, c, x) else NumberValue(s, a, b, c, x)
    ensures NumberParts(s, i, e, n, a, b, c, x)
  {
    hide At, IntegerSpells, FractionSpells, ExponentSpells, NumberValue, Digits;
  }

  lemma PartsAre(s: string, i: nat, e: nat, n: real, a: nat, b: nat, c: nat, x: int)
    requires NumberParts(s, i, e, n, a, b, c, x)
    ensures a == (if At(s, i) == '-' then i + 1 else i)
    ensures IntegerSpells(s, a, b) && b <= c && FractionSpells(s, b, c) && ExponentSpells(s, c, e, x)
    ensures Digits(s, a, b) && (c > b ==> Digits(s, b + 1, c))
    ensures n == if At(s, i) == '-' then -NumberValue(s, a, b, c, x) else NumberValue(s, a, b, c, x)
  {
    hide At, ExponentSpells, NumberValue, DigitAt;
  }

  /** The parser reads a number with its value, and as far as it goes. */
  lemma NumberIff(s: string, i: nat, e: nat, n: real)
    ensures NumberAt(s, i) == (n, e) <==> NumberSpells(s, i, e, n)
  {
    hide *;
    var a, b, c, x := NumberRead(s, i);
    var (m, f) := NumberAt(s, i);
    SpellsIf(s, i, f, m, a, b, c, x);
    if NumberSpells(s, i, e, n) {
      var a', b', c', x' := PartsOf(s, i, e, n);
      PartsAre(s, i, f, m, a, b, c, x);
      PartsAre(s, i, e, n, a', b', c', x');
      IntegerEnd(s, a, b, b');
      FractionEnd(s, b, c, c');
      ExponentEnd(s, c, f, x, e, x');
    }
  }

  lemma SpellsIf(s: string, i: nat, e: nat, n: real, a: nat, b: nat, c: nat, x: int)
    requires NumberParts(s, i, e, n, a, b, c, x)
    ensures NumberSpells(s, i, e, n)
  {
    hide NumberParts;
  }

  lemma PartsOf(s: string, i: nat, e: nat, n: real) returns (a: nat, b: nat, c: nat, x: int)
    requires NumberSpells(s, i, e, n)
    ensures NumberParts(s, i, e, n, a, b, c, x)
  {
    hide NumberParts;
    a, b, c, x :| NumberParts(s, i, e, n, a, b, c, x);
  }

  // ---------- values ----------

  /** Nothing but white space from i up to k: any character up to the blank, the terminator excepted. */
  predicate BlankTo(s: string, i: nat, k: nat) {
    i <= k && forall m :: i <= m < k ==> NUL < At(s, m) <= ' '
  }

  /** The characters of t stand at i, up to e. */
  predicate Word(s: string, i: nat, e: nat, t: string) {
    e == i + |t| && forall k :: 0 <= k < |t| ==> At(s, i + k) == t[k]
  }

  /** The stretch of s from i up to e spells the tree. A string is a literal from its quotation mark on. */
  ghost predicate Spells(s: string, i: nat, e: nat, j: Json)
    decreases j, 1
  {
    match j
    case Null => Word(s, i, e, "null")
    case False => Word(s, i, e, "false")
    case True => Word(s, i, e, "true")
    case Number(n) => (At(s, i) == '-' || DigitAt(s, i)) && NumberSpells(s, i, e, n)
    case Str(v) => At(s, i) == '\"' && StringAt(s, i) == Some((v, e))
    case Arr(items) =>
      At(s, i) == '[' && if items == [] then EmptySpells(s, i + 1, e, ']') else ItemsSpell(s, i + 1, e, items)
    case Obj(members) =>
      At(s, i) == '{' && if members == [] then EmptySpells(s, i + 1, e, '}') else MembersSpell(s, i + 1, e, members)
  }

  /** White space and the closing bracket. */
  ghost predicate EmptySpells(s: string, i: nat, e: nat, close: char) {
    e > i && BlankTo(s, i, e - 1) && At(s, e - 1) == close
  }

  /** Elements, each with white space around it, with commas between them and the bracket behind the last. */
  ghost predicate ItemsSpell(s: string, i: nat, e: nat, items: seq<Json>)
    requires items != []
    decreases items, 0
  {
    exists a: nat, b: nat, c: nat :: ItemSpells(s, i, a, b, c, items[0]) && Behind(s, c, e, ']', |items| == 1) && (|items| > 1 ==> ItemsSpell(s, c + 1, e, items[1..]))
  }

  ghost predicate ItemSpells(s: string, i: nat, a: nat, b: nat, c: nat, j: Json)
    decreases j, 2
  {
    BlankTo(s, i, a) && Spells(s, a, b, j) && BlankTo(s, b, c)
  }

  /** Behind the last element the bracket, which is the end, behind the others a comma. */
  predicate Behind(s: string, c: nat, e: nat, close: char, last: bool) {
    if last then At(s, c) == close && e == c + 1 else At(s, c) == ','
  }

  ghost predicate MembersSpell(s: string, i: nat, e: nat, members: seq<Member>)
    requires members != []
    decreases members, 0
  {
    exists a: nat, b: nat, c: nat, d: nat, f: nat, g: nat ::
      MemberSpells(s, i, a, b, c, d, f, g, members[0]) && Behind(s, g, e, '}', |members| == 1) && (|members| > 1 ==> MembersSpell(s, g + 1, e, members[1..]))
  }

  /** A name, a colon and a value, with white space around each. */
  ghost predicate MemberSpells(s: string, i: nat, a: nat, b: nat, c: nat, d: nat, f: nat, g: nat, m: Member)
    decreases m, 0
  {
    && BlankTo(s, i, a) && At(s, a) == '\"' && StringAt(s, a) == Some((m.name, b))
    && BlankTo(s, b, c) && At(s, c) == ':'
    && BlankTo(s, c + 1, d) && Spells(s, d, f, m.value) && BlankTo(s, f, g)
  }

  // ---------- white space ----------

  lemma {:induction false} SkipIs(s: string, i: nat)
    ensures BlankTo(s, i, Skip(s, i)) && !(NUL < At(s, Skip(s, i)) <= ' ')
    decreases |s| - i
  {
    if i < |s| && s[i] != NUL && s[i] <= 32 as char { SkipIs(s, i + 1); }
  }

  lemma SkipTo(s: string, i: nat, k: nat)
    requires BlankTo(s, i, k) && !(NUL < At(s, k) <= ' ')
    ensures Skip(s, i) == k
  {
    hide At;
    SkipIs(s, i);
  }

  lemma WordIs(s: string, i: nat, t: string)
    requires NUL !in t && t != []
    ensures Here(s, i, t) <==> Word(s, i, i + |t|, t)
  {
    if Here(s, i, t) {
      forall k | 0 <= k < |t| ensures At(s, i + k) == t[k] { HereAt(s, i, t, k); }
    }
    if Word(s, i, i + |t|, t) {
      assert At(s, i + (|t| - 1)) == t[|t| - 1] && t[|t| - 1] in t;
      forall k | 0 <= k < |t| ensures s[i..i + |t|][k] == t[k] { assert At(s, i + k) == t[k]; }
    }
  }

  // ---------- what is spelled is read ----------

  lemma VisibleSpells(s: string, i: nat, e: nat, j: Json)
    requires Spells(s, i, e, j)
    ensures At(s, i) > ' ' && At(s, i) != ']' && At(s, i) != '}'
  {
    hide At, NumberSpells, StringAt, ItemsSpell, MembersSpell, EmptySpells;
    if j.Null? { assert At(s, i + 0) == "null"[0]; }
    if j.False? { assert At(s, i + 0) == "false"[0]; }
    if j.True? { assert At(s, i + 0) == "true"[0]; }
  }

  lemma SpellsIs(s: string, i: nat, e: nat, j: Json)
    ensures j.Null? ==> (Spells(s, i, e, j) <==> Word(s, i, e, "null"))
    ensures j.False? ==> (Spells(s, i, e, j) <==> Word(s, i, e, "false"))
    ensures j.True? ==> (Spells(s, i, e, j) <==> Word(s, i, e, "true"))
    ensures j.Number? ==> (Spells(s, i, e, j) <==> (At(s, i) == '-' || DigitAt(s, i)) && NumberSpells(s, i, e, j.n))
    ensures j.Str? ==> (Spells(s, i, e, j) <==> At(s, i) == '\"' && StringAt(s, i) == Some((j.s, e)))
    ensures j.Arr? ==> (Spells(s, i, e, j) <==>
              At(s, i) == '[' && if j.items == [] then EmptySpells(s, i + 1, e, ']') else ItemsSpell(s, i + 1, e, j.items))
    ensures j.Obj? ==> (Spells(s, i, e, j) <==>
              At(s, i) == '{' && if j.members == [] then EmptySpells(s, i + 1, e, '}') else MembersSpell(s, i + 1, e, j.members))
  {
    hide Word, At, NumberSpells, StringAt, ItemsSpell, MembersSpell, EmptySpells, DigitAt;
  }

  lemma ScalarRead(s: string, i: nat, e: nat, j: Json)
    requires Spells(s, i, e, j) && !j.Arr? && !j.Obj?
    ensures ValueAt(s, i) == Some((j, e))
  {
    hide *;
    SpellsIs(s, i, e, j);
    ScalarAt(s, i);
    WordsAre(s, i);
    NotLiteral(s, i);
    DigitIs(s, i);
    if j.Number? { NumberIff(s, i, e, j.n); }
    if j.Null? { WordEnds(s, i, e, "null"); }
    if j.False? { WordEnds(s, i, e, "false"); }
    if j.True? { WordEnds(s, i, e, "true"); }
  }

  lemma DigitIs(s: string, i: nat)
    ensures DigitAt(s, i) <==> '0' <= At(s, i) <= '9'
  {
  }

  lemma WordsAre(s: string, i: nat)
    ensures Here(s, i, "null") <==> Word(s, i, i + 4, "null")
    ensures Here(s, i, "false") <==> Word(s, i, i + 5, "false")
    ensures Here(s, i, "true") <==> Word(s, i, i + 4, "true")
  {
    hide Here, Word, At;
    WordIs(s, i, "null");
    WordIs(s, i, "false");
    WordIs(s, i, "true");
  }

  lemma WordEnds(s: string, i: nat, e: nat, t: string)
    requires Word(s, i, e, t)
    ensures e == i + |t|
  {
  }

  lemma EmptyEnds(s: string, i: nat, e: nat, close: char)
    requires close > ' '
    ensures EmptySpells(s, i, e, close) <==> At(s, Skip(s, i)) == close && e == Skip(s, i) + 1
  {
    hide At, BlankTo;
    SkipIs(s, i);
    if EmptySpells(s, i, e, close) { SkipTo(s, i, e - 1); }
    SkipAhead(s, i);
  }

  lemma {:induction false} ValueRead(s: string, i: nat, e: nat, j: Json)
    requires Spells(s, i, e, j)
    ensures ValueAt(s, i) == Some((j, e))
    decreases j, 1
  {
    hide *;
    SpellsIs(s, i, e, j);
    match j
    case Arr(items) =>
      ArrayAt(s, i);
      MarksVisible();
      if items == [] {
        EmptyEnds(s, i + 1, e, ']');
      } else {
        ItemsRead(s, i + 1, e, items);
        SkipTwice(s, i + 1);
        SkipItems(s, i + 1, Skip(s, i + 1));
      }
    case Obj(members) =>
      ObjectAt(s, i);
      MarksVisible();
      if members == [] {
        EmptyEnds(s, i + 1, e, '}');
      } else {
        MembersRead(s, i + 1, e, members);
        SkipTwice(s, i + 1);
        SkipMembers(s, i + 1, Skip(s, i + 1));
      }
    case _ => ScalarRead(s, i, e, j);
  }

  lemma MarksVisible()
    ensures ']' > ' ' && '}' > ' ' && ',' > ' ' && ':' > ' ' && '\"' > ' '
  {
  }

  lemma ItemsParts(s: string, i: nat, e: nat, items: seq<Json>) returns (a: nat, b: nat, c: nat)
    requires items != [] && ItemsSpell(s, i, e, items)
    ensures BlankTo(s, i, a) && Spells(s, a, b, items[0]) && BlankTo(s, b, c)
    ensures if |items| == 1 then At(s, c) == ']' && e == c + 1 else At(s, c) == ',' && ItemsSpell(s, c + 1, e, items[1..])
  {
    hide BlankTo, Spells, At;
    a, b, c :| ItemSpells(s, i, a, b, c, items[0]) && Behind(s, c, e, ']', |items| == 1) && (|items| > 1 ==> ItemsSpell(s, c + 1, e, items[1..]));
  }

  lemma {:induction false} ItemsRead(s: string, i: nat, e: nat, items: seq<Json>)
    requires items != [] && ItemsSpell(s, i, e, items)
    ensures ItemsAt(s, i) == Some((items, e)) && At(s, Skip(s, i)) != ']'
    decreases items, 0
  {
    hide *;
    var a, b, c := ItemsParts(s, i, e, items);
    VisibleSpells(s, a, b, items[0]);
    SkipTo(s, i, a);
    ValueRead(s, a, b, items[0]);
    MarksVisible();
    SkipTo(s, b, c);
    ItemsUnfold(s, i);
    if |items| == 1 {
      assert [items[0]] == items;
    } else {
      ItemsRead(s, c + 1, e, items[1..]);
      assert [items[0]] + items[1..] == items;
    }
  }

  lemma MembersParts(s: string, i: nat, e: nat, members: seq<Member>) returns (a: nat, b: nat, c: nat, d: nat, f: nat, g: nat)
    requires members != [] && MembersSpell(s, i, e, members)
    ensures MemberSpells(s, i, a, b, c, d, f, g, members[0])
    ensures if |members| == 1 then At(s, g) == '}' && e == g + 1 else At(s, g) == ',' && MembersSpell(s, g + 1, e, members[1..])
  {
    hide MemberSpells, At;
    a, b, c, d, f, g :|
      MemberSpells(s, i, a, b, c, d, f, g, members[0]) && Behind(s, g, e, '}', |members| == 1) && (|members| > 1 ==> MembersSpell(s, g + 1, e, members[1..]));
  }

  lemma MemberIs(s: string, i: nat, a: nat, b: nat, c: nat, d: nat, f: nat, g: nat, m: Member)
    ensures MemberSpells(s, i, a, b, c, d, f, g, m) <==>
      && BlankTo(s, i, a) && At(s, a) == '\"' && StringAt(s, a) == Some((m.name, b))
      && BlankTo(s, b, c) && At(s, c) == ':'
      && BlankTo(s, c + 1, d) && Spells(s, d, f, m.value) && BlankTo(s, f, g)
  {
    hide BlankTo, Spells, StringAt, At;
  }

  lemma MemberAtIs(s: string, i: nat, a: nat, b: nat, c: nat, d: nat, f: nat, m: Member)
    requires a == Skip(s, i) && StringAt(s, a) == Some((m.name, b)) && c == Skip(s, b) && At(s, c) == ':'
    requires d == Skip(s, c + 1) && ValueAt(s, d) == Some((m.value, f))
    ensures MemberAt(s, i) == Some((m, f))
  {
    hide Skip, StringAt, ValueAt, At;
  }

  lemma {:induction false} MembersRead(s: string, i: nat, e: nat, members: seq<Member>)
    requires members != [] && MembersSpell(s, i, e, members)
    ensures MembersAt(s, i) == Some((members, e)) && At(s, Skip(s, i)) != '}'
    decreases members, 0
  {
    hide *;
    var a, b, c, d, f, g := MembersParts(s, i, e, members);
    var m := members[0];
    MemberIs(s, i, a, b, c, d, f, g, m);
    MarksVisible();
    SkipTo(s, i, a);
    SkipTo(s, b, c);
    VisibleSpells(s, d, f, m.value);
    SkipTo(s, c + 1, d);
    ValueRead(s, d, f, m.value);
    SkipTo(s, f, g);
    MemberAtIs(s, i, a, b, c, d, f, m);
    MembersUnfold(s, i);
    if |members| == 1 {
      assert [m] == members;
    } else {
      MembersRead(s, g + 1, e, members[1..]);
      assert [m] + members[1..] == members;
    }
  }

  // ---------- what is read is spelled ----------

  lemma ScalarSpelled(s: string, i: nat)
    requires ValueAt(s, i).Some? && At(s, i) != '[' && At(s, i) != '{'
    ensures Spells(s, i, ValueAt(s, i).value.1, ValueAt(s, i).value.0)
  {
    hide *;
    var (j, e) := ValueAt(s, i).value;
    ScalarAt(s, i);
    WordsAre(s, i);
    NotLiteral(s, i);
    DigitIs(s, i);
    SpellsIs(s, i, e, j);
    NumberIff(s, i, NumberAt(s, i).1, NumberAt(s, i).0);
  }

  lemma {:induction false} ValueSpelled(s: string, i: nat)
    requires ValueAt(s, i).Some?
    ensures Spells(s, i, ValueAt(s, i).value.1, ValueAt(s, i).value.0)
    decreases |s| - i, 1
  {
    hide *;
    var (j, e) := ValueAt(s, i).value;
    ValueFirst(s, i);
    SpellsIs(s, i, e, j);
    MarksVisible();
    var k := Skip(s, i + 1);
    SkipAhead(s, i + 1);
    if At(s, i) == '[' {
      ArrayAt(s, i);
      EmptyEnds(s, i + 1, e, ']');
      if At(s, k) != ']' {
        SkipTwice(s, i + 1);
        SkipItems(s, i + 1, k);
        ItemsSpelled(s, i + 1);
      }
    } else if At(s, i) == '{' {
      ObjectAt(s, i);
      EmptyEnds(s, i + 1, e, '}');
      if At(s, k) != '}' {
        SkipTwice(s, i + 1);
        SkipMembers(s, i + 1, k);
        MembersSpelled(s, i + 1);
      }
    } else {
      ScalarSpelled(s, i);
    }
  }

  lemma ItemsIf(s: string, i: nat, e: nat, items: seq<Json>, a: nat, b: nat, c: nat)
    requires items != [] && BlankTo(s, i, a) && Spells(s, a, b, items[0]) && BlankTo(s, b, c)
    requires if |items| == 1 then At(s, c) == ']' && e == c + 1 else At(s, c) == ',' && ItemsSpell(s, c + 1, e, items[1..])
    ensures ItemsSpell(s, i, e, items)
  {
    hide BlankTo, Spells, At;
    assert ItemSpells(s, i, a, b, c, items[0]) && Behind(s, c, e, ']', |items| == 1);
  }

  lemma {:induction false} ItemsSpelled(s: string, i: nat)
    requires ItemsAt(s, i).Some?
    ensures var (items, e) := ItemsAt(s, i).value; items != [] && ItemsSpell(s, i, e, items)
    decreases |s| - i, 2
  {
    hide *;
    ItemsUnfold(s, i);
    var a := Skip(s, i);
    SkipIs(s, i);
    SkipAhead(s, i);
    ValueFirst(s, a);
    ValueMoves(s, a);
    var (j, b) := ValueAt(s, a).value;
    var c := Skip(s, b);
    SkipIs(s, b);
    SkipAhead(s, b);
    ValueSpelled(s, a);
    CommaIsNoEnd();
    AtInside(s, c);
    var (items, e) := ItemsAt(s, i).value;
    if At(s, c) == ',' {
      ItemsSpelled(s, c + 1);
      assert items[1..] == ItemsAt(s, c + 1).value.0;
    }
    ItemsIf(s, i, e, items, a, b, c);
  }

  lemma MembersIf(s: string, i: nat, e: nat, members: seq<Member>, a: nat, b: nat, c: nat, d: nat, f: nat, g: nat)
    requires members != [] && MemberSpells(s, i, a, b, c, d, f, g, members[0])
    requires if |members| == 1 then At(s, g) == '}' && e == g + 1 else At(s, g) == ',' && MembersSpell(s, g + 1, e, members[1..])
    ensures MembersSpell(s, i, e, members)
  {
    hide MemberSpells, At;
    assert Behind(s, g, e, '}', |members| == 1);
  }

  lemma MemberAtParts(s: string, i: nat)
    requires MemberAt(s, i).Some?
    ensures var a := Skip(s, i);
      && At(s, a) == '\"' && StringAt(s, a).Some?
      && var b := StringAt(s, a).value.1;
        && At(s, Skip(s, b)) == ':' && ValueAt(s, Skip(s, Skip(s, b) + 1)).Some?
        && MemberAt(s, i).value == (Member(StringAt(s, a).value.0, ValueAt(s, Skip(s, Skip(s, b) + 1)).value.0), ValueAt(s, Skip(s, Skip(s, b) + 1)).value.1)
  {
    hide Skip, ValueAt, Body;
  }

  lemma {:induction false} MembersSpelled(s: string, i: nat)
    requires MembersAt(s, i).Some?
    ensures var (members, e) := MembersAt(s, i).value; members != [] && MembersSpell(s, i, e, members)
    decreases |s| - i, 2
  {
    hide *;
    MembersUnfold(s, i);
    MemberParts(s, i);
    MemberAtParts(s, i);
    var a := Skip(s, i);
    SkipIs(s, i);
    SkipAhead(s, i);
    AtInside(s, a);
    MarkNotNul();
    var b := StringAt(s, a).value.1;
    var c := Skip(s, b);
    SkipIs(s, b);
    var d := Skip(s, c + 1);
    SkipIs(s, c + 1);
    SkipAhead(s, c + 1);
    ValueSpelled(s, d);
    var f := ValueAt(s, d).value.1;
    var g := Skip(s, f);
    SkipIs(s, f);
    SkipAhead(s, f);
    MemberIs(s, i, a, b, c, d, f, g, MemberAt(s, i).value.0);
    CommaIsNoEnd();
    AtInside(s, g);
    var (members, e) := MembersAt(s, i).value;
    if At(s, g) == ',' {
      MembersSpelled(s, g + 1);
      assert members[1..] == MembersAt(s, g + 1).value.0;
    }
    MembersIf(s, i, e, members, a, b, c, d, f, g);
  }

  // ---------- whole texts ----------

  /** The parser finds a value exactly where one is spelled, with its tree and its end. */
  lemma ValueIff(s: string, i: nat, e: nat, j: Json)
    ensures ValueAt(s, i) == Some((j, e)) <==> Spells(s, i, e, j)
  {
    hide *;
    if ValueAt(s, i) == Some((j, e)) { ValueSpelled(s, i); }
    if Spells(s, i, e, j) { ValueRead(s, i, e, j); }
  }

  /** Parsing succeeds exactly on the texts that spell a tree behind white space; when the whole text is
    * asked for, nothing but white space stands behind it. */
  lemma ParseIff(s: string, requireEnd: bool, j: Json, end: nat)
    ensures Parse(s, requireEnd) == Some((j, end)) <==>
              exists i: nat, e: nat ::
                && BlankTo(s, 0, i) && Spells(s, i, e, j)
                && if requireEnd then BlankTo(s, e, end) && At(s, end) == NUL else e == end
  {
    hide *;
    ParseIs(s, requireEnd);
    var k := Skip(s, 0);
    SkipIs(s, 0);
    if Parse(s, requireEnd) == Some((j, end)) {
      var (x, f) := ValueAt(s, k).value;
      ValueSpelled(s, k);
      SkipIs(s, f);
      assert BlankTo(s, 0, k) && Spells(s, k, f, j);
    }
    if i: nat, e: nat :|
      && BlankTo(s, 0, i) && Spells(s, i, e, j)
      && if requireEnd then BlankTo(s, e, end) && At(s, end) == NUL else e == end
    {
      VisibleSpells(s, i, e, j);
      SkipTo(s, 0, i);
      ValueRead(s, i, e, j);
      if requireEnd {
        NulIsNotBlank();
        SkipTo(s, e, end);
      }
    }
  }

  lemma NulIsNotBlank()
    ensures !(NUL < NUL)
  {
  }
}
