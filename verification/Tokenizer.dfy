/** Cutting one word off the front of a text, across line breaks after a hyphen. Reading past the end
  * of the content gives its terminator. */
module Tokenizer {
  import opened Options
  import opened Texts

  // ---------- character classes ----------

  predicate IsBlank(c: char) {
    c == ' ' || c == '\n' || c == '\t' || c == '\r'
  }

  predicate IsDelimiter(c: char) {
    || IsBlank(c) || c == '\"' || c == '\'' || c == '`' || c == ',' || c == '.' || c == '|' || c == '(' || c == ')'
    || c == '<' || c == '>' || c == '[' || c == ']' || c == '{' || c == '}' || c == '/' || c == '$' || c == '#' || c == '^'
    || c == '&' || c == '*' || c == '@' || c == '!' || c == '?' || c == ';' || c == ':' || c == '\\' || c == '_' || c == '+'
  }

  predicate IsConnect(c: char) {
    c == '~' || c == '-'
  }

  predicate IsAlnum(c: char) {
    'A' <= c <= 'Z' || 'a' <= c <= 'z' || '0' <= c <= '9'
  }

  predicate IsDigitLike(c: char) {
    '0' <= c <= '9' || c == 'l' || c == 'I' || c == 'i' || c == 'o' || c == 'O'
  }

  /** checkCharType: 1 for a digit from 2 to 9, 2 for a letter that is not digit-like, 0 otherwise. */
  function CharType(c: char): (t: nat)
    ensures t <= 2
  {
    if '1' < c <= '9' then 1 else if !IsDigitLike(c) && IsAlnum(c) then 2 else 0
  }

  lemma ClassesApart(c: char)
    ensures IsAlnum(c) ==> !IsDelimiter(c) && !IsConnect(c)
    ensures IsBlank(c) ==> IsDelimiter(c)
    ensures IsConnect(c) ==> !IsDelimiter(c)
    ensures CharType(c) != 0 ==> IsAlnum(c)
  {
  }

  // ---------- letters and digits ----------

  function Alnums(s: string): string {
    if s == [] then [] else if IsAlnum(s[0]) then [s[0]] + Alnums(s[1..]) else Alnums(s[1..])
  }

  lemma {:induction false} AlnumsConcat(a: string, b: string)
    ensures Alnums(a + b) == Alnums(a) + Alnums(b)
  {
    if a == [] {
      assert a + b == b;
    } else {
      AlnumsConcat(a[1..], b);
      assert (a + b)[1..] == a[1..] + b;
    }
  }

  lemma {:induction false} NoAlnums(s: string)
    requires forall i :: 0 <= i < |s| ==> !IsAlnum(s[i])
    ensures Alnums(s) == []
  {
    if s != [] { NoAlnums(s[1..]); }
  }

  // ---------- the cut ----------

  /** Where the main loop stops, what it has collected, and the delimiter it found. */
  datatype Cut = Failed | Cut(at: nat, word: string, next: char)

  /** Behind a delimiter: the next letter, digit, connector or delimiter that is not blank, or end. */
  function Look(s: string, end: nat, k: nat): (e: nat)
    requires k <= end
    ensures k <= e <= end
    ensures forall m :: k <= m < e ==> !IsAlnum(At(s, m)) && !IsConnect(At(s, m))
    decreases end - k
  {
    if k == end then end
    else
      var c := At(s, k);
      if IsAlnum(c) || IsConnect(c) || (IsDelimiter(c) && !IsBlank(c)) then k else Look(s, end, k + 1)
  }

  /** Whether a connector follows the delimiter at i before anything but blanks. */
  predicate Joins(s: string, end: nat, i: nat)
    requires i < end
  {
    var k := Look(s, end, i + 1);
    k < end && IsConnect(At(s, k))
  }

  /** The main loop from position i on, in the text from b to end; begun says that a character other
    * than a delimiter has been seen, kind is the type of the last collected one. */
  function Collect(s: string, b: nat, end: nat, room: nat, i: nat, word: string, begun: bool, connect: bool, kind: nat): (r: Cut)
    requires i <= end
    decreases end - i
  {
    if i == end then if begun then Cut(i, word, ' ') else Failed
    else
      var c := At(s, i);
      if IsConnect(c) && i > b && IsDigitLike(At(s, i + 1)) then
        if begun then Cut(i, word, '-') else Failed
      else
        var joined := connect || IsConnect(c);
        if begun && IsDelimiter(c) && !joined then
          if Joins(s, end, i) then Collect(s, b, end, room, Look(s, end, i + 1) + 1, word, true, true, kind)
          else Cut(i, word, c)
        else if begun && kind != 0 && CharType(c) != 0 && CharType(c) != kind then Cut(i, word, ' ')
        else if IsDelimiter(c) || IsConnect(c) then
          Collect(s, b, end, room, i + 1, word, begun || !IsDelimiter(c), joined, kind)
        else if |word| >= room then Failed
        else Collect(s, b, end, room, i + 1, word + [c], true, false, CharType(c))
  }

  /** Blanks and connectors behind a word that ends at a blank. */
  function SkipGap(s: string, end: nat, i: nat): (e: nat)
    requires i <= end
    ensures i <= e <= end && forall m :: i <= m < e ==> !IsAlnum(At(s, m))
    decreases end - i
  {
    if i == end || IsAlnum(At(s, i)) || (!IsBlank(At(s, i)) && !IsConnect(At(s, i))) then i else SkipGap(s, end, i + 1)
  }

  function Delimiters(s: string, end: nat, i: nat): (e: nat)
    requires i <= end
    ensures i <= e <= end && forall m :: i <= m < e ==> !IsAlnum(At(s, m))
    decreases end - i
  {
    if i == end || !IsDelimiter(At(s, i)) then i else Delimiters(s, end, i + 1)
  }

  /** The first position from i on that holds no delimiter. */
  function Start(s: string, end: nat, i: nat): (k: nat)
    requires i <= end
    ensures i <= k <= end && (k < end ==> !IsDelimiter(At(s, k)))
    decreases end - i
  {
    if i == end || !IsDelimiter(At(s, i)) then i else Start(s, end, i + 1)
  }

  /** The last delimiter other than a blank among the positions from i up to k. */
  function LastMark(s: string, i: nat, k: nat): Option<char> {
    if k <= i then None
    else if !IsBlank(At(s, k - 1)) then Some(At(s, k - 1))
    else LastMark(s, i, k - 1)
  }

  function OrBlank(mark: Option<char>): char {
    if mark.Some? then mark.value else ' '
  }

  /** A word and the number of characters it takes, with everything up to the next one; the delimiter
    * behind it, the mark in front of it, and the last one taken, which is not reported if there is none. */
  datatype Token = Token(len: nat, word: string, next: char, before: Option<char>, last: Option<char>)

  /** spilitContent on the text from b to end. */
  function Split(s: string, b: nat, end: nat, room: nat): Option<Token>
    requires b <= end
  {
    match Collect(s, b, end, room, b, [], false, false, 0)
    case Failed => None
    case Cut(at, word, next) =>
      if !(b <= at <= end) then None
      else
        var g := if IsBlank(next) then SkipGap(s, end, at) else at;
        var found := if IsBlank(next) && g < end && !IsAlnum(At(s, g)) then At(s, g) else next;
        var e := Delimiters(s, end, g);
        Some(Token(e - b, word, found, Some(OrBlank(LastMark(s, b, Start(s, end, b)))), LastMark(s, g, e)))
  }

  /** Part of the text, as it is read. */
  function Span(s: string, i: nat, j: nat): (t: string)
    requires i <= j
    ensures |t| == j - i
  {
    seq(j - i, k requires 0 <= k => At(s, i + k))
  }

  lemma SpanSplit(s: string, i: nat, j: nat, k: nat)
    requires i <= j <= k
    ensures Span(s, i, k) == Span(s, i, j) + Span(s, j, k)
  {
  }

  lemma SpanSkipped(s: string, i: nat, j: nat)
    requires i <= j && forall m :: i <= m < j ==> !IsAlnum(At(s, m))
    ensures Alnums(Span(s, i, j)) == []
  {
    hide At, IsAlnum;
    forall k | 0 <= k < j - i ensures !IsAlnum(Span(s, i, j)[k]) {
      assert Span(s, i, j)[k] == At(s, i + k);
    }
    NoAlnums(Span(s, i, j));
  }

  lemma SpanOne(s: string, i: nat)
    ensures Span(s, i, i + 1) == [At(s, i)] && Span(s, i, i) == []
  {
  }

  /** The main loop makes progress, and collects every letter and digit it passes, in order. */
  lemma {:induction false} CollectKeeps(s: string, b: nat, end: nat, room: nat, i: nat, word: string, begun: bool, connect: bool, kind: nat)
    requires b <= i <= end && (begun ==> b < i)
    ensures var r := Collect(s, b, end, room, i, word, begun, connect, kind);
      r.Cut? ==> i <= r.at <= end && b < r.at && Alnums(r.word) == Alnums(word) + Alnums(Span(s, i, r.at))
    decreases end - i
  {
    hide Alnums, IsDelimiter, IsAlnum, IsBlank, IsConnect, IsDigitLike, CharType, Span, At;
    var r := Collect(s, b, end, room, i, word, begun, connect, kind);
    SpanOne(s, i);
    NoneKept(word);
    if i < end {
      var c := At(s, i);
      ClassesApart(c);
      var joined := connect || IsConnect(c);
      if IsConnect(c) && i > b && IsDigitLike(At(s, i + 1)) {
      } else if begun && IsDelimiter(c) && !joined {
        if Joins(s, end, i) {
          var k := Look(s, end, i + 1);
          ClassesApart(At(s, k));
          CollectKeeps(s, b, end, room, k + 1, word, true, true, kind);
          if r.Cut? { Passed(s, i, k + 1, r.at, word); }
        }
      } else if begun && kind != 0 && CharType(c) != 0 && CharType(c) != kind {
      } else if IsDelimiter(c) || IsConnect(c) {
        CollectKeeps(s, b, end, room, i + 1, word, begun || !IsDelimiter(c), joined, kind);
        if r.Cut? { Passed(s, i, i + 1, r.at, word); }
      } else if |word| < room {
        CollectKeeps(s, b, end, room, i + 1, word + [c], true, false, CharType(c));
        if r.Cut? { Taken(s, i, r.at, word); }
      }
    }
  }

  lemma NoneKept(word: string)
    ensures Alnums(word) + Alnums([]) == Alnums(word) && Alnums([]) == []
  {
  }

  lemma Passed(s: string, i: nat, k: nat, e: nat, word: string)
    requires i <= k <= e && forall m :: i <= m < k ==> !IsAlnum(At(s, m))
    ensures Alnums(word) + Alnums(Span(s, k, e)) == Alnums(word) + Alnums(Span(s, i, e))
  {
    hide Alnums, IsAlnum, Span, At;
    SpanSplit(s, i, k, e);
    AlnumsConcat(Span(s, i, k), Span(s, k, e));
    SpanSkipped(s, i, k);
  }

  lemma Taken(s: string, i: nat, e: nat, word: string)
    requires i < e
    ensures Alnums(word + [At(s, i)]) + Alnums(Span(s, i + 1, e)) == Alnums(word) + Alnums(Span(s, i, e))
  {
    hide Alnums, IsAlnum, Span, At;
    SpanSplit(s, i, i + 1, e);
    SpanOne(s, i);
    AlnumsConcat([At(s, i)], Span(s, i + 1, e));
    AlnumsConcat(word, [At(s, i)]);
  }

  /** A successful cut takes at least one character and no more than there are, and keeps every letter
    * and digit of what it takes, in order. */
  lemma SplitKeeps(s: string, b: nat, end: nat, room: nat)
    requires b <= end && Split(s, b, end, room).Some?
    ensures var t := Split(s, b, end, room).value;
      1 <= t.len <= end - b && Alnums(t.word) == Alnums(Span(s, b, b + t.len))
  {
    hide Alnums, IsDelimiter, IsAlnum, IsBlank, IsConnect, Span, At, Collect, SkipGap, Delimiters;
    var r := Collect(s, b, end, room, b, [], false, false, 0);
    CollectKeeps(s, b, end, room, b, [], false, false, 0);
    var e := b + Split(s, b, end, room).value.len;
    SpanSplit(s, b, r.at, e);
    AlnumsConcat(Span(s, b, r.at), Span(s, r.at, e));
    SpanSkipped(s, r.at, e);
    NoneKept(r.word);
    NoneKept(Alnums(r.word));
  }

  // ---------- when a cut fails ----------

  /** Only delimiters, or a connector in front of a digit behind at least one delimiter. */
  predicate NoWord(s: string, b: nat, end: nat)
    requires b <= end
  {
    var k := Start(s, end, b);
    k == end || (k > b && IsConnect(At(s, k)) && IsDigitLike(At(s, k + 1)))
  }

  /** With less room the main loop stops at the same place, unless the word no longer fits. */
  lemma {:induction false} CollectFits(s: string, b: nat, end: nat, room: nat, i: nat, word: string, begun: bool, connect: bool, kind: nat)
    requires b <= i <= end && |word| <= room && |word| <= i - b
    ensures var r := Collect(s, b, end, end - b, i, word, begun, connect, kind);
      && (r.Cut? ==> |word| <= |r.word|)
      && Collect(s, b, end, room, i, word, begun, connect, kind) == if r.Cut? && |r.word| <= room then r else Failed
    ensures begun ==> Collect(s, b, end, end - b, i, word, begun, connect, kind).Cut?
    decreases end - i
  {
    hide IsDelimiter, IsAlnum, IsBlank, IsConnect, IsDigitLike, CharType, At, Look;
    if i < end {
      var c := At(s, i);
      ClassesApart(c);
      var joined := connect || IsConnect(c);
      if IsConnect(c) && i > b && IsDigitLike(At(s, i + 1)) {
      } else if begun && IsDelimiter(c) && !joined {
        if Joins(s, end, i) { CollectFits(s, b, end, room, Look(s, end, i + 1) + 1, word, true, true, kind); }
      } else if begun && kind != 0 && CharType(c) != 0 && CharType(c) != kind {
      } else if IsDelimiter(c) || IsConnect(c) {
        CollectFits(s, b, end, room, i + 1, word, begun || !IsDelimiter(c), joined, kind);
      } else if |word| < room {
        CollectFits(s, b, end, room, i + 1, word + [c], true, false, CharType(c));
      } else {
        CollectFits(s, b, end, room + 1, i + 1, word + [c], true, false, CharType(c));
      }
    }
  }

  lemma {:induction false} CollectStarts(s: string, b: nat, end: nat, i: nat)
    requires b <= i <= end && forall m :: b <= m < i ==> IsDelimiter(At(s, m))
    requires Start(s, end, i) == Start(s, end, b)
    ensures Collect(s, b, end, end - b, i, [], false, false, 0).Failed? <==> NoWord(s, b, end)
    decreases end - i
  {
    hide IsDelimiter, IsAlnum, IsBlank, IsConnect, IsDigitLike, CharType, At, Look;
    if i < end {
      var c := At(s, i);
      ClassesApart(c);
      if IsDelimiter(c) {
        CollectStarts(s, b, end, i + 1);
      } else if IsConnect(c) && i > b && IsDigitLike(At(s, i + 1)) {
      } else if IsConnect(c) {
        CollectFits(s, b, end, end - b, i + 1, [], true, true, 0);
      } else {
        assert [] + [c] == [c];
        CollectFits(s, b, end, end - b, i + 1, [c], true, false, CharType(c));
      }
    }
  }

  /** A cut fails exactly when there is no word to start with or the word is longer than the room. */
  lemma SplitFails(s: string, b: nat, end: nat, room: nat)
    requires b <= end
    ensures Split(s, b, end, end - b).None? <==> NoWord(s, b, end)
    ensures Split(s, b, end, room) ==
            if Split(s, b, end, end - b).Some? && |Split(s, b, end, end - b).value.word| <= room then Split(s, b, end, end - b) else None
  {
    hide IsDelimiter, IsAlnum, IsBlank, IsConnect, IsDigitLike, CharType, At, Collect, SkipGap, Delimiters, NoWord, Alnums, Span;
    CollectStarts(s, b, end, b);
    CollectFits(s, b, end, room, b, [], false, false, 0);
    CollectKeeps(s, b, end, end - b, b, [], false, false, 0);
  }

  /** An area that starts with a blank and a negative number yields no word at all. */
  lemma NegativeFirst()
    ensures Split(" -5", 0, 3, 256).None? && Alnums(" -5") == "5"
  {
    var s := " -5";
    assert At(s, 0) == ' ' && At(s, 1) == '-' && At(s, 2) == '5';
    assert Start(s, 3, 1) == 1;
    assert Start(s, 3, 0) == 1;
    assert NoWord(s, 0, 3);
    SplitFails(s, 0, 3, 256);
    assert s[1..] == "-5" && "-5"[1..] == "5";
    assert Alnums("5") == "5";
    assert Alnums("-5") == "5";
  }

  // ---------- the loops ----------

  lemma LookNext(s: string, end: nat, k: nat)
    requires k <= end
    ensures k == end ==> Look(s, end, k) == end
    ensures k < end ==> var c := At(s, k);
      Look(s, end, k) == if IsAlnum(c) || IsConnect(c) || (IsDelimiter(c) && !IsBlank(c)) then k else Look(s, end, k + 1)
  {
  }

  /** The search behind a delimiter: whether it finds a connector, and where it stops. */
  method FindConnect(s: string, end: nat, i: nat) returns (found: bool, k: nat)
    requires i < end
    ensures k == Look(s, end, i + 1) && found == Joins(s, end, i)
  {
    hide IsAlnum, IsConnect, IsDelimiter, IsBlank, At, Look;
    k := i + 1;
    LookNext(s, end, k);
    while k < end
      invariant i < k <= end && Look(s, end, k) == Look(s, end, i + 1)
    {
      LookNext(s, end, k);
      var c := At(s, k);
      ClassesApart(c);
      if IsAlnum(c) { return false, k; }
      if IsConnect(c) { return true, k; }
      if IsDelimiter(c) && !IsBlank(c) { return false, k; }
      k := k + 1;
    }
    LookNext(s, end, k);
    found := false;
  }

  /** The main loop. */
  method CollectWord(s: string, b: nat, end: nat, room: nat) returns (ok: bool, i: nat, word: string, next: char, before: char)
    requires b <= end
    ensures ok ==> before == OrBlank(LastMark(s, b, Start(s, end, b)))
    ensures var r := Collect(s, b, end, room, b, [], false, false, 0);
      if r.Failed? then !ok else ok && i == r.at && word == r.word && next == r.next && i <= end
  {
    hide IsAlnum, IsConnect, IsDelimiter, IsBlank, IsDigitLike, CharType, At, Look, Joins;
    i, word, next, before := b, [], ' ', ' ';
    var begun, connect, kind := false, false, 0;
    while i < end
      invariant b <= i <= end && next == ' '
      invariant before == OrBlank(LastMark(s, b, if begun then Start(s, end, b) else i))
      invariant !begun ==> Start(s, end, i) == Start(s, end, b)
      invariant Collect(s, b, end, room, i, word, begun, connect, kind) == Collect(s, b, end, room, b, [], false, false, 0)
      decreases end - i
    {
      var c := At(s, i);
      ClassesApart(c);
      if IsConnect(c) {
        connect := true;
        if i > b && IsDigitLike(At(s, i + 1)) {
          next := '-';
          return begun, i, word, next, before;
        }
      }
      if !begun {
        begun := !IsDelimiter(c);
        if !begun && !IsBlank(c) { before := c; }
      } else if IsDelimiter(c) && !connect {
        var found, k := FindConnect(s, end, i);
        LookBounds(s, end, i);
        if !found {
          next := c;
          return true, i, word, next, before;
        }
        i, connect := k + 1, true;
        continue;
      } else if kind != 0 && CharType(c) != 0 && CharType(c) != kind {
        return true, i, word, next, before;
      }
      if IsDelimiter(c) || IsConnect(c) {
        i := i + 1;
        continue;
      }
      if |word| >= room { return false, i, word, next, before; }
      kind := CharType(c);
      word := word + [c];
      i := i + 1;
      connect := false;
    }
    ok := begun;
  }

  lemma LookBounds(s: string, end: nat, i: nat)
    requires i < end
    ensures i < Look(s, end, i + 1) <= end && (Joins(s, end, i) ==> Look(s, end, i + 1) < end)
  {
  }

  lemma GapNext(s: string, end: nat, i: nat)
    requires i <= end
    ensures SkipGap(s, end, i) == if i == end || IsAlnum(At(s, i)) || (!IsBlank(At(s, i)) && !IsConnect(At(s, i))) then i else SkipGap(s, end, i + 1)
    ensures Delimiters(s, end, i) == if i == end || !IsDelimiter(At(s, i)) then i else Delimiters(s, end, i + 1)
  {
    hide IsAlnum, IsConnect, IsDelimiter, IsBlank, At;
  }

  /** spilitContent: the number of characters taken, or 0. */
  method SpilitContent(s: string, b: nat, end: nat, room: nat)
    returns (len: nat, word: string, next: char, before: char, last: Option<char>)
    requires b <= end
    ensures Split(s, b, end, room).None? <==> len == 0
    ensures len > 0 ==> Split(s, b, end, room) == Some(Token(len, word, next, Some(before), last))
  {
    hide IsAlnum, IsConnect, IsDelimiter, IsBlank, At, Collect, SkipGap, Delimiters, Alnums, Span;
    len, last := 0, None;
    var ok, i;
    CollectKeeps(s, b, end, room, b, [], false, false, 0);
    ok, i, word, next, before := CollectWord(s, b, end, room);
    if !ok { return; }
    ghost var at, stop := i, next;
    GapNext(s, end, i);
    if IsBlank(next) {
      while i < end
        invariant at <= i <= end && next == stop && SkipGap(s, end, i) == SkipGap(s, end, at)
      {
        GapNext(s, end, i);
        var c := At(s, i);
        if IsAlnum(c) { break; }
        if !IsBlank(c) && !IsConnect(c) {
          next := c;
          break;
        }
        i := i + 1;
      }
      GapNext(s, end, i);
    }
    ghost var g := i;
    GapNext(s, end, i);
    while i < end && IsDelimiter(At(s, i))
      invariant g <= i <= end && Delimiters(s, end, i) == Delimiters(s, end, g) && last == LastMark(s, g, i)
    {
      GapNext(s, end, i);
      if !IsBlank(At(s, i)) { last := Some(At(s, i)); }
      i := i + 1;
    }
    GapNext(s, end, i);
    len := i - b;
    SplitKeeps(s, b, end, room);
  }
}
