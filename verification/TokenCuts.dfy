/** Where a word ends and what it consists of, told from the characters alone. */
module TokenCuts {
  import opened Options
  import opened Texts
  import opened Tokenizer

  // ---------- the characters ----------

  predicate Blank(c: char) {
    c in " \n\t\r"
  }

  predicate Delimiter(c: char) {
    c in " \n\t\r\"'`,.|()<>[]{}/$#^&*@!?;:\\_+"
  }

  predicate Connector(c: char) {
    c in "~-"
  }

  predicate Alphanumeric(c: char) {
    'a' <= c <= 'z' || 'A' <= c <= 'Z' || '0' <= c <= '9'
  }

  /** Neither a delimiter nor a connector: a character that can belong to a word. */
  predicate Plain(c: char) {
    !Delimiter(c) && !Connector(c)
  }

  /** What digits are often taken for, and the digits. */
  predicate DigitLike(c: char) {
    c in "0123456789lIioO"
  }

  predicate SureDigit(c: char) {
    c in "23456789"
  }

  predicate SureLetter(c: char) {
    ('a' <= c <= 'z' || 'A' <= c <= 'Z') && c !in "lIioO"
  }

  /** One is surely a digit and the other surely a letter. */
  predicate Differ(c: char, d: char) {
    (SureDigit(c) && SureLetter(d)) || (SureLetter(c) && SureDigit(d))
  }

  lemma ClassesAre(c: char)
    ensures IsBlank(c) <==> Blank(c)
    ensures IsDelimiter(c) <==> Delimiter(c)
    ensures IsConnect(c) <==> Connector(c)
    ensures IsAlnum(c) <==> Alphanumeric(c)
    ensures IsDigitLike(c) <==> DigitLike(c)
    ensures CharType(c) == 1 <==> SureDigit(c)
    ensures CharType(c) == 2 <==> SureLetter(c)
  {
  }

  lemma PlainClasses(c: char)
    ensures Alphanumeric(c) ==> Plain(c)
    ensures Blank(c) ==> Delimiter(c)
    ensures !(Delimiter(c) && Connector(c))
    ensures SureDigit(c) || SureLetter(c) ==> Alphanumeric(c)
  {
    hide *;
    ClassesAre(c);
    ClassesApart(c);
    PlainIs(c);
  }

  lemma PlainIs(c: char)
    ensures Plain(c) <==> !Delimiter(c) && !Connector(c)
  {
    hide Delimiter, Connector;
  }

  // ---------- words carried over a gap ----------

  /** Behind a word character, the delimiter at i is followed by a connector at k, with nothing but
    * blanks and characters of no class between them. */
  predicate Bridge(s: string, b: nat, end: nat, i: nat, k: nat) {
    && b < i < k < end
    && Delimiter(At(s, i)) && Plain(At(s, i - 1)) && Connector(At(s, k))
    && forall m :: i < m < k ==> Blank(At(s, m)) || (Plain(At(s, m)) && !Alphanumeric(At(s, m)))
  }

  ghost predicate Under(s: string, b: nat, end: nat, m: nat) {
    exists i: nat, k: nat :: Bridge(s, b, end, i, k) && i < m < k
  }

  ghost predicate StartsBridge(s: string, b: nat, end: nat, m: nat) {
    exists k: nat :: Bridge(s, b, end, m, k)
  }

  ghost predicate EndsBridge(s: string, b: nat, end: nat, m: nat) {
    exists i: nat :: Bridge(s, b, end, i, m)
  }

  /** The word characters from b up to i, without those under a bridge. */
  ghost function Picked(s: string, b: nat, end: nat, i: nat): string {
    if i <= b then []
    else if Plain(At(s, i - 1)) && !Under(s, b, end, i - 1) then Picked(s, b, end, i - 1) + [At(s, i - 1)]
    else Picked(s, b, end, i - 1)
  }

  /** The word ends here: at the end of the area, at a connector in front of what may be a digit, at a
    * delimiter behind a word character, unless a bridge is in the way, or between a sure digit and a sure
    * letter. */
  ghost predicate Stops(s: string, b: nat, end: nat, m: nat) {
    || m == end
    || (m > b && Connector(At(s, m)) && DigitLike(At(s, m + 1)) && !EndsBridge(s, b, end, m))
    || (m > b && Delimiter(At(s, m)) && Plain(At(s, m - 1)) && !StartsBridge(s, b, end, m))
    || (Plain(At(s, m)) && !Under(s, b, end, m) && Mixes(Picked(s, b, end, m), At(s, m)))
  }

  predicate Mixes(word: string, c: char) {
    word != [] && Differ(word[|word| - 1], c)
  }

  /** What stands where the word ends. */
  function Found(s: string, end: nat, m: nat): char {
    if m >= end then ' ' else if Connector(At(s, m)) then '-' else if Delimiter(At(s, m)) then At(s, m) else ' '
  }

  // ---------- the state of the main loop ----------

  /** The last character in front of i that is no delimiter is a connector. */
  ghost predicate Linked(s: string, b: nat, i: nat) {
    exists q: nat :: b <= q < i && Connector(At(s, q)) && forall m :: q < m < i ==> Delimiter(At(s, m))
  }

  ghost predicate Begun(s: string, b: nat, i: nat) {
    exists m: nat :: b <= m < i && !Delimiter(At(s, m))
  }

  /** No bridge reaches over position i. */
  ghost predicate Clear(s: string, b: nat, end: nat, i: nat) {
    forall p: nat, k: nat :: Bridge(s, b, end, p, k) ==> !(p < i <= k)
  }

  ghost predicate NoStop(s: string, b: nat, end: nat, i: nat) {
    forall m :: b <= m < i ==> !Stops(s, b, end, m)
  }

  function KindOf(word: string): nat {
    if word == [] then 0 else CharType(word[|word| - 1])
  }

  lemma BeginState(s: string, b: nat, end: nat)
    ensures Picked(s, b, end, b) == [] && !Linked(s, b, b) && !Begun(s, b, b) && Clear(s, b, end, b) && NoStop(s, b, end, b)
  {
  }

  lemma BegunNext(s: string, b: nat, i: nat)
    requires b <= i
    ensures Begun(s, b, i + 1) <==> Begun(s, b, i) || !Delimiter(At(s, i))
  {
    hide Delimiter, At;
  }

  lemma LinkedNext(s: string, b: nat, i: nat)
    requires b <= i
    ensures Connector(At(s, i)) ==> Linked(s, b, i + 1)
    ensures Plain(At(s, i)) ==> !Linked(s, b, i + 1)
    ensures Delimiter(At(s, i)) ==> (Linked(s, b, i + 1) <==> Linked(s, b, i))
  {
    hide Delimiter, Connector, At;
    PlainClasses(At(s, i));
    if Connector(At(s, i)) {
      assert b <= i < i + 1;
    } else if Delimiter(At(s, i)) && Linked(s, b, i) {
      var q :| b <= q < i && Connector(At(s, q)) && forall m :: q < m < i ==> Delimiter(At(s, m));
      assert forall m :: q < m < i + 1 ==> Delimiter(At(s, m));
    }
  }

  lemma NoStopNext(s: string, b: nat, end: nat, i: nat)
    requires NoStop(s, b, end, i) && !Stops(s, b, end, i)
    ensures NoStop(s, b, end, i + 1)
  {
    hide Stops;
  }

  /** A delimiter reached behind a word, without a connector since, stands directly behind a word character. */
  lemma {:induction false} BehindWord(s: string, b: nat, end: nat, i: nat, j: nat)
    requires b <= j <= i < end && Begun(s, b, j) && !Linked(s, b, i) && Clear(s, b, end, i) && NoStop(s, b, end, i)
    requires forall m :: j <= m <= i ==> Delimiter(At(s, m))
    ensures i > b && Plain(At(s, i - 1))
    decreases j
  {
    hide Delimiter, Connector, Blank, At, Picked;
    BegunBehind(s, b, j);
    PlainIs(At(s, j - 1));
    if Delimiter(At(s, j - 1)) {
      BehindWord(s, b, end, i, j - 1);
    } else if Connector(At(s, j - 1)) {
      assert false;
    } else if j < i {
      StopsThere(s, b, end, j, i);
      assert false;
    }
  }

  lemma BegunBehind(s: string, b: nat, j: nat)
    requires b <= j && Begun(s, b, j)
    ensures j > b && (Delimiter(At(s, j - 1)) ==> Begun(s, b, j - 1))
  {
    hide Delimiter, At;
  }

  /** A delimiter between a word character and a delimiter that no bridge passes over. */
  lemma StopsThere(s: string, b: nat, end: nat, j: nat, i: nat)
    requires b < j < i < end && Clear(s, b, end, i) && Plain(At(s, j - 1))
    requires forall m :: j <= m <= i ==> Delimiter(At(s, m))
    ensures Stops(s, b, end, j)
  {
    hide Delimiter, Connector, Blank, At, Picked, Plain;
    if k: nat :| Bridge(s, b, end, j, k) {
      if k <= i { PlainClasses(At(s, k)); }
    }
  }

  // ---------- the steps of the main loop ----------

  lemma {:induction false} LookIs(s: string, end: nat, k: nat)
    requires k <= end
    ensures var e := Look(s, end, k);
      && (forall m: nat :: k <= m < e ==> Blank(At(s, m)) || (Plain(At(s, m)) && !Alphanumeric(At(s, m))))
      && (e < end ==> Alphanumeric(At(s, e)) || Connector(At(s, e)) || (Delimiter(At(s, e)) && !Blank(At(s, e))))
    decreases end - k
  {
    hide *;
    LookNext(s, end, k);
    if k < end {
      ClassesAre(At(s, k));
      PlainIs(At(s, k));
      if Look(s, end, k) != k { LookIs(s, end, k + 1); }
    }
  }

  lemma JoinsIs(s: string, b: nat, end: nat, i: nat)
    requires b < i < end && Delimiter(At(s, i)) && Plain(At(s, i - 1))
    ensures Joins(s, end, i) ==> Bridge(s, b, end, i, Look(s, end, i + 1))
    ensures Joins(s, end, i) <==> StartsBridge(s, b, end, i)
  {
    hide Delimiter, Connector, Blank, Plain, Alphanumeric, IsConnect, At, Look;
    LookBounds(s, end, i);
    LookIs(s, end, i + 1);
    var e := Look(s, end, i + 1);
    ClassesAre(At(s, e));
    if k: nat :| Bridge(s, b, end, i, k) {
      PlainClasses(At(s, e));
      PlainClasses(At(s, k));
      PlainIs(At(s, e));
      PlainIs(At(s, k));
      assert e == k;
    }
  }

  lemma ClearNext(s: string, b: nat, end: nat, i: nat)
    requires Clear(s, b, end, i) && !StartsBridge(s, b, end, i)
    ensures Clear(s, b, end, i + 1) && !Under(s, b, end, i) && !EndsBridge(s, b, end, i)
  {
    hide Bridge;
    if p: nat :| Bridge(s, b, end, p, i) { BridgeOrder(s, b, end, p, i); }
  }

  lemma BridgeOrder(s: string, b: nat, end: nat, i: nat, k: nat)
    requires Bridge(s, b, end, i, k)
    ensures b < i < k < end
  {
  }

  lemma NoBridgeHere(s: string, b: nat, end: nat, i: nat)
    requires StartsBridge(s, b, end, i)
    ensures i > b && Delimiter(At(s, i)) && Plain(At(s, i - 1))
  {
    hide Delimiter, Plain, At;
  }

  lemma UnderBridge(s: string, b: nat, end: nat, i: nat, k: nat, m: nat)
    requires Bridge(s, b, end, i, k) && i <= m <= k
    ensures !Stops(s, b, end, m) && Picked(s, b, end, m + 1) == Picked(s, b, end, m)
  {
    hide Delimiter, Connector, Blank, Plain, Alphanumeric, At;
    PlainClasses(At(s, m));
    PlainIs(At(s, m));
    if m == i {
      assert StartsBridge(s, b, end, m);
    } else if m == k {
      assert EndsBridge(s, b, end, m);
    } else {
      assert Under(s, b, end, m);
      if Plain(At(s, m - 1)) && Delimiter(At(s, m)) { assert Bridge(s, b, end, m, k); }
    }
  }

  lemma {:induction false} OverBridge(s: string, b: nat, end: nat, i: nat, k: nat, m: nat)
    requires Bridge(s, b, end, i, k) && i <= m <= k + 1 && NoStop(s, b, end, i)
    ensures NoStop(s, b, end, m) && Picked(s, b, end, m) == Picked(s, b, end, i)
    decreases m
  {
    hide Bridge, Stops, Picked;
    if m > i {
      OverBridge(s, b, end, i, k, m - 1);
      UnderBridge(s, b, end, i, k, m - 1);
    }
  }

  lemma BehindBridge(s: string, b: nat, end: nat, i: nat, k: nat)
    requires Bridge(s, b, end, i, k)
    ensures Clear(s, b, end, k + 1) && Linked(s, b, k + 1) && Begun(s, b, k + 1)
  {
    hide Delimiter, Connector, Blank, Plain, Alphanumeric, At;
    PlainClasses(At(s, k));
    PlainIs(At(s, k));
    assert b <= k < k + 1;
  }

  lemma PickedNext(s: string, b: nat, end: nat, i: nat)
    requires b <= i && !Under(s, b, end, i)
    ensures Picked(s, b, end, i + 1) == if Plain(At(s, i)) then Picked(s, b, end, i) + [At(s, i)] else Picked(s, b, end, i)
  {
    hide Plain, At, Under;
  }

  lemma StopsIs(s: string, b: nat, end: nat, m: nat)
    ensures m == end ==> Stops(s, b, end, m)
    ensures m < end && Connector(At(s, m)) ==>
              (Stops(s, b, end, m) <==> m > b && DigitLike(At(s, m + 1)) && !EndsBridge(s, b, end, m))
    ensures m < end && Delimiter(At(s, m)) ==>
              (Stops(s, b, end, m) <==> m > b && Plain(At(s, m - 1)) && !StartsBridge(s, b, end, m))
    ensures m < end && Plain(At(s, m)) ==>
              (Stops(s, b, end, m) <==> !Under(s, b, end, m) && Mixes(Picked(s, b, end, m), At(s, m)))
  {
    hide Delimiter, Connector, DigitLike, Plain, At, Picked, Under, EndsBridge, StartsBridge, Mixes;
    PlainClasses(At(s, m));
    PlainIs(At(s, m));
  }

  lemma MixesIs(word: string, c: char)
    ensures Mixes(word, c) <==> KindOf(word) != 0 && CharType(c) != 0 && CharType(c) != KindOf(word)
  {
    hide CharType, SureDigit, SureLetter;
    ClassesAre(c);
    if word != [] { ClassesAre(word[|word| - 1]); }
  }

  lemma KindMore(word: string, c: char)
    ensures KindOf(word + [c]) == CharType(c) && KindOf([]) == 0
  {
  }

  /** The state that the main loop keeps in step with the characters read so far. */
  ghost predicate State(s: string, b: nat, end: nat, i: nat, word: string, begun: bool, connect: bool, kind: nat) {
    && word == Picked(s, b, end, i) && kind == KindOf(word)
    && (begun <==> Begun(s, b, i)) && (connect <==> Linked(s, b, i))
    && Clear(s, b, end, i) && NoStop(s, b, end, i)
  }

  lemma StatePast(s: string, b: nat, end: nat, i: nat, word: string, begun: bool, connect: bool, kind: nat)
    requires b <= i < end && State(s, b, end, i, word, begun, connect, kind) && !StartsBridge(s, b, end, i) && !Stops(s, b, end, i)
    ensures var c := At(s, i);
      if Plain(c) then State(s, b, end, i + 1, word + [c], true, false, CharType(c))
      else State(s, b, end, i + 1, word, begun || !Delimiter(c), connect || Connector(c), kind)
  {
    hide Delimiter, Connector, Plain, At, Picked, Under, EndsBridge, StartsBridge, Stops, Begun, Linked, Clear, NoStop, CharType, KindOf;
    PlainClasses(At(s, i));
    PlainIs(At(s, i));
    BegunNext(s, b, i);
    LinkedNext(s, b, i);
    ClearNext(s, b, end, i);
    NoStopNext(s, b, end, i);
    PickedNext(s, b, end, i);
    KindMore(word, At(s, i));
  }

  lemma StateOver(s: string, b: nat, end: nat, i: nat, k: nat, word: string, begun: bool, connect: bool, kind: nat)
    requires Bridge(s, b, end, i, k) && State(s, b, end, i, word, begun, connect, kind)
    ensures State(s, b, end, k + 1, word, true, true, kind)
  {
    hide Bridge, Picked, Begun, Linked, Clear, NoStop, KindOf;
    BridgeOrder(s, b, end, i, k);
    OverBridge(s, b, end, i, k, k + 1);
    BehindBridge(s, b, end, i, k);
  }

  lemma {:induction false} PickedBegun(s: string, b: nat, end: nat, i: nat)
    requires Picked(s, b, end, i) != []
    ensures Begun(s, b, i)
  {
    hide Delimiter, Connector, At, Under;
    if i > b {
      BegunNext(s, b, i - 1);
      if !Plain(At(s, i - 1)) || Under(s, b, end, i - 1) { PickedBegun(s, b, end, i - 1); }
    }
  }

  lemma StateFacts(s: string, b: nat, end: nat, i: nat, word: string, begun: bool, connect: bool, kind: nat)
    requires b <= i < end && State(s, b, end, i, word, begun, connect, kind)
    ensures word == Picked(s, b, end, i) && kind == KindOf(word) && NoStop(s, b, end, i)
    ensures !Under(s, b, end, i) && !EndsBridge(s, b, end, i) && (kind != 0 ==> begun)
    ensures Delimiter(At(s, i)) && begun && !connect ==> i > b && Plain(At(s, i - 1))
    ensures Delimiter(At(s, i)) && (!begun || connect) ==> !(i > b && Plain(At(s, i - 1)))
  {
    hide Delimiter, Connector, Plain, At, Picked, StartsBridge, Stops, Begun, Linked, NoStop, KindOf, Bridge;
    if p: nat :| Bridge(s, b, end, p, i) { BridgeOrder(s, b, end, p, i); }
    KindMore(word, At(s, i));
    if word != [] { PickedBegun(s, b, end, i); }
    if Delimiter(At(s, i)) && begun && !connect { BehindWord(s, b, end, i, i); }
    if i > b && Plain(At(s, i - 1)) {
      PlainIs(At(s, i - 1));
      LinkedNext(s, b, i - 1);
      BegunNext(s, b, i - 1);
    }
  }

  /** The loop stops at the first position at which a word ends, with the characters picked up to there. */
  lemma {:induction false} CollectIs(s: string, b: nat, end: nat, room: nat, i: nat, word: string, begun: bool, connect: bool, kind: nat)
    requires b <= i <= end && State(s, b, end, i, word, begun, connect, kind)
    ensures var r := Collect(s, b, end, room, i, word, begun, connect, kind);
      r.Cut? ==> i <= r.at <= end && r.word == Picked(s, b, end, r.at) && r.next == Found(s, end, r.at)
                 && Stops(s, b, end, r.at) && NoStop(s, b, end, r.at)
    decreases end - i
  {
    hide *;
    CollectNext(s, b, end, room, i, word, begun, connect, kind);
    StopsIs(s, b, end, i);
    FoundIs(s, end, i);
    if i == end {
      StateEnd(s, b, end, i, word, begun, connect, kind);
    } else {
      StateFacts(s, b, end, i, word, begun, connect, kind);
      var c := At(s, i);
      ClassesAre(c);
      ClassesAre(At(s, i + 1));
      PlainClasses(c);
      PlainIs(c);
      MixesIs(word, c);
      if StartsBridge(s, b, end, i) { NoBridgeHere(s, b, end, i); }
      if IsConnect(c) && i > b && IsDigitLike(At(s, i + 1)) {
      } else if begun && IsDelimiter(c) && !(connect || IsConnect(c)) {
        JoinsIs(s, b, end, i);
        if Joins(s, end, i) {
          var k := Look(s, end, i + 1);
          LookBounds(s, end, i);
          StateOver(s, b, end, i, k, word, begun, connect, kind);
          CollectIs(s, b, end, room, k + 1, word, true, true, kind);
        }
      } else if begun && kind != 0 && CharType(c) != 0 && CharType(c) != kind {
        KindPlain(c);
      } else {
        StatePast(s, b, end, i, word, begun, connect, kind);
        if IsDelimiter(c) || IsConnect(c) {
          CollectIs(s, b, end, room, i + 1, word, begun || !IsDelimiter(c), connect || IsConnect(c), kind);
        } else if |word| < room {
          CollectIs(s, b, end, room, i + 1, word + [c], true, false, CharType(c));
        }
      }
    }
  }

  lemma KindPlain(c: char)
    ensures CharType(c) != 0 ==> Plain(c)
  {
    hide *;
    ClassesAre(c);
    PlainClasses(c);
    KindsAre(c);
  }

  lemma KindsAre(c: char)
    ensures CharType(c) in {0, 1, 2}
  {
  }

  lemma StateEnd(s: string, b: nat, end: nat, i: nat, word: string, begun: bool, connect: bool, kind: nat)
    requires State(s, b, end, i, word, begun, connect, kind)
    ensures word == Picked(s, b, end, i) && NoStop(s, b, end, i)
  {
    hide Picked, NoStop, Begun, Linked, Clear, KindOf;
  }

  lemma FoundIs(s: string, end: nat, m: nat)
    ensures m >= end ==> Found(s, end, m) == ' '
    ensures m < end && Connector(At(s, m)) ==> Found(s, end, m) == '-'
    ensures m < end && Delimiter(At(s, m)) ==> Found(s, end, m) == At(s, m)
    ensures m < end && Plain(At(s, m)) ==> Found(s, end, m) == ' '
  {
    hide Delimiter, Connector, At;
    PlainClasses(At(s, m));
  }

  lemma CollectNext(s: string, b: nat, end: nat, room: nat, i: nat, word: string, begun: bool, connect: bool, kind: nat)
    requires i <= end
    ensures var r := Collect(s, b, end, room, i, word, begun, connect, kind);
      if i == end then r == if begun then Cut(i, word, ' ') else Failed
      else
        var c := At(s, i);
        if IsConnect(c) && i > b && IsDigitLike(At(s, i + 1)) then
          r == if begun then Cut(i, word, '-') else Failed
        else if begun && IsDelimiter(c) && !(connect || IsConnect(c)) then
          r == if Joins(s, end, i) then Collect(s, b, end, room, Look(s, end, i + 1) + 1, word, true, true, kind)
               else Cut(i, word, c)
        else if begun && kind != 0 && CharType(c) != 0 && CharType(c) != kind then r == Cut(i, word, ' ')
        else if IsDelimiter(c) || IsConnect(c) then
          r == Collect(s, b, end, room, i + 1, word, begun || !IsDelimiter(c), connect || IsConnect(c), kind)
        else r == if |word| >= room then Failed else Collect(s, b, end, room, i + 1, word + [c], true, false, CharType(c))
  {
    hide IsDelimiter, IsConnect, IsDigitLike, CharType, At;
  }

  // ---------- the cut ----------

  lemma StateAtStart(s: string, b: nat, end: nat)
    ensures State(s, b, end, b, [], false, false, 0)
  {
    hide Picked, Begun, Linked, Clear, NoStop, CharType;
    BeginState(s, b, end);
  }

  lemma {:induction false} SkipGapIs(s: string, end: nat, i: nat)
    requires i <= end
    ensures var g := SkipGap(s, end, i);
      && (forall m: nat :: i <= m < g ==> Blank(At(s, m)) || Connector(At(s, m)))
      && (g < end ==> !Blank(At(s, g)) && !Connector(At(s, g)))
    decreases end - i
  {
    hide *;
    GapNext(s, end, i);
    if i < end {
      ClassesAre(At(s, i));
      ClassesApart(At(s, i));
      if SkipGap(s, end, i) != i { SkipGapIs(s, end, i + 1); }
    }
  }

  lemma {:induction false} DelimitersAre(s: string, end: nat, i: nat)
    requires i <= end
    ensures var e := Delimiters(s, end, i);
      (forall m: nat :: i <= m < e ==> Delimiter(At(s, m))) && (e < end ==> !Delimiter(At(s, e)))
    decreases end - i
  {
    hide *;
    GapNext(s, end, i);
    if i < end {
      ClassesAre(At(s, i));
      if IsDelimiter(At(s, i)) { DelimitersAre(s, end, i + 1); }
    }
  }

  lemma {:induction false} StartIs(s: string, end: nat, i: nat)
    requires i <= end
    ensures var k := Start(s, end, i);
      (forall m: nat :: i <= m < k ==> Delimiter(At(s, m))) && (k < end ==> !Delimiter(At(s, k)))
    decreases end - i
  {
    hide Delimiter, IsDelimiter, At;
    if i < end {
      ClassesAre(At(s, i));
      if IsDelimiter(At(s, i)) { StartIs(s, end, i + 1); }
    }
  }

  /** The last character from i up to k that is not blank, or none. */
  ghost predicate LastSeen(s: string, i: nat, k: nat, mark: Option<char>) {
    match mark
    case None => forall m: nat :: i <= m < k ==> Blank(At(s, m))
    case Some(c) => exists q: nat :: i <= q < k && At(s, q) == c && !Blank(c) && forall m: nat :: q < m < k ==> Blank(At(s, m))
  }

  lemma SeenNone(s: string, i: nat, k: nat)
    requires k <= i
    ensures LastSeen(s, i, k, None)
  {
    hide Blank, At;
  }

  lemma SeenHere(s: string, i: nat, k: nat)
    requires i <= k && !Blank(At(s, k))
    ensures LastSeen(s, i, k + 1, Some(At(s, k)))
  {
    hide Blank, At;
    assert i <= k < k + 1;
  }

  lemma SeenBefore(s: string, i: nat, k: nat, mark: Option<char>)
    requires LastSeen(s, i, k, mark) && Blank(At(s, k))
    ensures LastSeen(s, i, k + 1, mark)
  {
    hide Blank, At;
    if mark.Some? {
      var q: nat :| i <= q < k && At(s, q) == mark.value && !Blank(mark.value) && forall m: nat :: q < m < k ==> Blank(At(s, m));
      assert i <= q < k + 1 && forall m: nat :: q < m < k + 1 ==> Blank(At(s, m));
    }
  }

  lemma LastMarkNext(s: string, i: nat, k: nat)
    ensures k <= i ==> LastMark(s, i, k) == None
    ensures k > i ==> LastMark(s, i, k) == if IsBlank(At(s, k - 1)) then LastMark(s, i, k - 1) else Some(At(s, k - 1))
  {
    hide IsBlank, At;
  }

  lemma {:induction false} LastMarkIs(s: string, i: nat, k: nat)
    ensures LastSeen(s, i, k, LastMark(s, i, k))
    decreases k
  {
    hide *;
    LastMarkNext(s, i, k);
    if k <= i {
      SeenNone(s, i, k);
    } else {
      ClassesAre(At(s, k - 1));
      if IsBlank(At(s, k - 1)) {
        LastMarkIs(s, i, k - 1);
        SeenBefore(s, i, k - 1, LastMark(s, i, k - 1));
      } else {
        SeenHere(s, i, k - 1);
      }
    }
  }

  /** A cut, told from the characters: the word ends at the first position where one can end, and is what
    * is picked up to there. Behind a word that ends at a blank, blanks and connectors are skipped, and
    * what stands behind them is reported unless it is a letter or digit; then all delimiters are taken. */
  ghost predicate CutAt(s: string, b: nat, end: nat, t: Token, at: nat, gap: nat) {
    && b < at <= gap <= b + t.len <= end
    && Stops(s, b, end, at) && NoStop(s, b, end, at) && t.word == Picked(s, b, end, at)
    && (if Blank(Found(s, end, at))
        then (forall m: nat :: at <= m < gap ==> Blank(At(s, m)) || Connector(At(s, m)))
             && (gap < end ==> !Blank(At(s, gap)) && !Connector(At(s, gap)))
        else gap == at)
    && t.next == (if Blank(Found(s, end, at)) && gap < end && !Alphanumeric(At(s, gap)) then At(s, gap) else Found(s, end, at))
    && (forall m: nat :: gap <= m < b + t.len ==> Delimiter(At(s, m)))
    && (b + t.len < end ==> !Delimiter(At(s, b + t.len)))
    && LastSeen(s, gap, b + t.len, t.last)
  }

  /** What stands in front of the word: the last leading delimiter that is not blank, or a blank. */
  ghost predicate InFront(s: string, b: nat, end: nat, before: Option<char>) {
    exists k: nat, mark ::
      && b <= k <= end && (forall m: nat :: b <= m < k ==> Delimiter(At(s, m))) && (k < end ==> !Delimiter(At(s, k)))
      && LastSeen(s, b, k, mark) && before == Some(if mark.Some? then mark.value else ' ')
  }

  /** Every successful cut, for any room. */
  lemma CutIs(s: string, b: nat, end: nat, room: nat) returns (at: nat, gap: nat)
    requires b <= end && Split(s, b, end, room).Some?
    ensures CutAt(s, b, end, Split(s, b, end, room).value, at, gap)
    ensures InFront(s, b, end, Split(s, b, end, room).value.before)
  {
    hide *;
    var r := Collect(s, b, end, room, b, [], false, false, 0);
    CollectKeeps(s, b, end, room, b, [], false, false, 0);
    StateAtStart(s, b, end);
    CollectIs(s, b, end, room, b, [], false, false, 0);
    SplitIs(s, b, end, room);
    at := r.at;
    ClassesAre(r.next);
    gap := if IsBlank(r.next) then SkipGap(s, end, at) else at;
    SkipGapIs(s, end, at);
    DelimitersAre(s, end, gap);
    LastMarkIs(s, gap, Delimiters(s, end, gap));
    ClassesAre(At(s, gap));
    CutIf(s, b, end, Split(s, b, end, room).value, at, gap);
    StartIs(s, end, b);
    LastMarkIs(s, b, Start(s, end, b));
    InFrontIf(s, b, end, Start(s, end, b), LastMark(s, b, Start(s, end, b)));
  }

  lemma SplitIs(s: string, b: nat, end: nat, room: nat)
    requires b <= end && Split(s, b, end, room).Some?
    ensures var r, t := Collect(s, b, end, room, b, [], false, false, 0), Split(s, b, end, room).value;
      && r.Cut? && b <= r.at <= end && t.word == r.word
      && var g := if IsBlank(r.next) then SkipGap(s, end, r.at) else r.at;
        && r.at <= g <= Delimiters(s, end, g) <= end && b + t.len == Delimiters(s, end, g)
        && t.next == (if IsBlank(r.next) && g < end && !IsAlnum(At(s, g)) then At(s, g) else r.next)
        && t.last == LastMark(s, g, Delimiters(s, end, g))
    ensures Split(s, b, end, room).value.before == Some(OrBlank(LastMark(s, b, Start(s, end, b))))
    ensures b <= Start(s, end, b) <= end
  {
    hide Collect, IsBlank, IsAlnum, At, LastMark, OrBlank;
  }

  lemma CutIf(s: string, b: nat, end: nat, t: Token, at: nat, gap: nat)
    requires b < at <= gap <= b + t.len <= end
    requires Stops(s, b, end, at) && NoStop(s, b, end, at) && t.word == Picked(s, b, end, at)
    requires if Blank(Found(s, end, at))
      then (forall m: nat :: at <= m < gap ==> Blank(At(s, m)) || Connector(At(s, m)))
           && (gap < end ==> !Blank(At(s, gap)) && !Connector(At(s, gap)))
      else gap == at
    requires t.next == (if Blank(Found(s, end, at)) && gap < end && !Alphanumeric(At(s, gap)) then At(s, gap) else Found(s, end, at))
    requires forall m: nat :: gap <= m < b + t.len ==> Delimiter(At(s, m))
    requires (b + t.len < end ==> !Delimiter(At(s, b + t.len))) && LastSeen(s, gap, b + t.len, t.last)
    ensures CutAt(s, b, end, t, at, gap)
  {
    hide Stops, NoStop, Picked, Blank, Connector, Delimiter, Alphanumeric, At, Found, LastSeen;
  }

  lemma InFrontIf(s: string, b: nat, end: nat, k: nat, mark: Option<char>)
    requires b <= k <= end && (forall m: nat :: b <= m < k ==> Delimiter(At(s, m))) && (k < end ==> !Delimiter(At(s, k)))
    requires LastSeen(s, b, k, mark)
    ensures InFront(s, b, end, Some(OrBlank(mark)))
  {
    hide Delimiter, At, LastSeen;
  }

  // ---------- what follows for words ----------

  lemma {:induction false} PickedNotMixed(s: string, b: nat, end: nat, i: nat, k: nat)
    requires NoStop(s, b, end, i) && i <= end && k + 1 < |Picked(s, b, end, i)|
    ensures !Differ(Picked(s, b, end, i)[k], Picked(s, b, end, i)[k + 1])
    decreases i
  {
    hide Differ, At, Under, Plain;
    var m := i - 1;
    var w := Picked(s, b, end, m);
    assert NoStop(s, b, end, m) && !Stops(s, b, end, m);
    if k + 1 < |w| {
      PickedNotMixed(s, b, end, m, k);
    }
  }

  /** No word holds a sure digit beside a sure letter. */
  lemma NeverMixed(s: string, b: nat, end: nat, room: nat, k: nat)
    requires b <= end && Split(s, b, end, room).Some? && k + 1 < |Split(s, b, end, room).value.word|
    ensures !Differ(Split(s, b, end, room).value.word[k], Split(s, b, end, room).value.word[k + 1])
  {
    hide *;
    var at, gap := CutIs(s, b, end, room);
    CutFacts(s, b, end, Split(s, b, end, room).value, at, gap);
    PickedNotMixed(s, b, end, at, k);
  }

  lemma CutFacts(s: string, b: nat, end: nat, t: Token, at: nat, gap: nat)
    requires CutAt(s, b, end, t, at, gap)
    ensures b < at <= gap <= b + t.len <= end
    ensures Stops(s, b, end, at) && NoStop(s, b, end, at) && t.word == Picked(s, b, end, at)
  {
    hide Stops, NoStop, Picked, Found, Blank, Connector, Delimiter, Alphanumeric, At, LastSeen;
  }

  /** A word that ends directly between two letters or digits ends between a sure digit and a sure letter. */
  lemma EndsBetween(s: string, b: nat, end: nat, t: Token, at: nat, gap: nat)
    requires CutAt(s, b, end, t, at, gap) && at < end && Alphanumeric(At(s, at - 1)) && Alphanumeric(At(s, at))
    ensures Differ(At(s, at - 1), At(s, at))
  {
    hide *;
    CutFacts(s, b, end, t, at, gap);
    PlainClasses(At(s, at - 1));
    PlainClasses(At(s, at));
    PlainIs(At(s, at - 1));
    StopsIs(s, b, end, at);
    NotUnder(s, b, end, at - 1);
    PickedNext(s, b, end, at - 1);
    MixesLast(Picked(s, b, end, at - 1), At(s, at - 1), At(s, at));
  }

  lemma NotUnder(s: string, b: nat, end: nat, m: nat)
    requires Alphanumeric(At(s, m))
    ensures !Under(s, b, end, m)
  {
    hide Delimiter, Connector, Plain, Blank, Alphanumeric, At;
    PlainClasses(At(s, m));
    PlainIs(At(s, m));
  }

  lemma MixesLast(word: string, c: char, d: char)
    ensures Mixes(word + [c], d) <==> Differ(c, d)
  {
    hide Differ;
  }

  /** All word characters from b up to i. */
  function Filtered(s: string, b: nat, i: nat): string {
    if i <= b then [] else if Plain(At(s, i - 1)) then Filtered(s, b, i - 1) + [At(s, i - 1)] else Filtered(s, b, i - 1)
  }

  lemma {:induction false} PickedIsFiltered(s: string, b: nat, end: nat, i: nat)
    ensures |Picked(s, b, end, i)| <= |Filtered(s, b, i)|
    ensures Picked(s, b, end, i) == Filtered(s, b, i) <==> forall m: nat :: b <= m < i && Plain(At(s, m)) ==> !Under(s, b, end, m)
  {
    hide Plain, Under, At;
    if i > b {
      PickedIsFiltered(s, b, end, i - 1);
      var v, w, c := Picked(s, b, end, i - 1), Filtered(s, b, i - 1), At(s, i - 1);
      assert (v + [c])[..|v|] == v && (w + [c])[..|w|] == w;
    }
  }

  /** A word is all the word characters of the part it is cut from, unless some of them, which are then
    * neither letters nor digits, are passed over on the way to a connector. */
  lemma WordIsFiltered(s: string, b: nat, end: nat, room: nat) returns (at: nat)
    requires b <= end && Split(s, b, end, room).Some?
    ensures b < at <= b + Split(s, b, end, room).value.len
    ensures Split(s, b, end, room).value.word == Filtered(s, b, at) <==>
              forall m: nat :: b <= m < at && Plain(At(s, m)) && !Alphanumeric(At(s, m)) ==> !Under(s, b, end, m)
  {
    hide *;
    var gap;
    at, gap := CutIs(s, b, end, room);
    CutFacts(s, b, end, Split(s, b, end, room).value, at, gap);
    PickedIsFiltered(s, b, end, at);
    forall m: nat | b <= m < at && Alphanumeric(At(s, m)) ensures !Under(s, b, end, m) {
      NotUnder(s, b, end, m);
    }
  }

  /** A page mark is cut in front of its number, and a sign without a class is passed over. */
  lemma Samples()
    ensures Split("pp23", 0, 4, 256).Some? && Split("pp23", 0, 4, 256).value.len == 2 && Split("pp23", 0, 4, 256).value.word == "pp"
    ensures Split("ab %-cd", 0, 7, 256).Some? && Split("ab %-cd", 0, 7, 256).value.word == "abcd"
  {
    var s := "pp23";
    assert At(s, 0) == 'p' && At(s, 1) == 'p' && At(s, 2) == '2';
    assert Collect(s, 0, 4, 256, 2, "pp", true, false, 2) == Cut(2, "pp", ' ');
    assert Collect(s, 0, 4, 256, 1, "p", true, false, 2) == Cut(2, "pp", ' ') by { assert "p" + ['p'] == "pp"; }
    assert Collect(s, 0, 4, 256, 0, [], false, false, 0) == Cut(2, "pp", ' ') by { assert [] + ['p'] == "p"; }
    SampleGap();
  }

  lemma SampleGap()
    ensures Split("ab %-cd", 0, 7, 256).Some? && Split("ab %-cd", 0, 7, 256).value.word == "abcd"
  {
    hide *;
    var s := "ab %-cd";
    SampleClasses();
    assert [] + ['a'] == "a" && "a" + ['b'] == "ab" && "ab" + ['c'] == "abc" && "abc" + ['d'] == "abcd";
    CollectNext(s, 0, 7, 256, 0, [], false, false, 0);
    CollectNext(s, 0, 7, 256, 1, "a", true, false, 2);
    CollectNext(s, 0, 7, 256, 2, "ab", true, false, 2);
    CollectNext(s, 0, 7, 256, 5, "ab", true, true, 2);
    CollectNext(s, 0, 7, 256, 6, "abc", true, false, 2);
    CollectNext(s, 0, 7, 256, 7, "abcd", true, false, 2);
    CutGives(s, 0, 7, 256);
  }

  lemma SampleClasses()
    ensures var s := "ab %-cd";
      && At(s, 0) == 'a' && At(s, 1) == 'b' && At(s, 2) == ' ' && At(s, 5) == 'c' && At(s, 6) == 'd'
      && Joins(s, 7, 2) && Look(s, 7, 3) == 4
    ensures forall c :: c in "abcd" ==> !IsConnect(c) && !IsDelimiter(c) && CharType(c) == 2
    ensures !IsConnect(' ') && IsDelimiter(' ')
  {
    var s := "ab %-cd";
    assert At(s, 3) == '%' && At(s, 4) == '-';
    assert Look(s, 7, 4) == 4;
    assert Look(s, 7, 3) == 4;
  }

  lemma CutGives(s: string, b: nat, end: nat, room: nat)
    requires b <= end
    ensures var r := Collect(s, b, end, room, b, [], false, false, 0);
      r.Cut? && b <= r.at <= end ==> Split(s, b, end, room).Some? && Split(s, b, end, room).value.word == r.word
  {
    hide Collect, SkipGap, Delimiters, Start, LastMark, IsBlank, IsAlnum, At;
  }

  /** When a cut fails for any room: the first character that is no delimiter is missing, or it is a
    * connector, not at the start, in front of what may be a digit. */
  lemma FailsWhen(s: string, b: nat, end: nat, k: nat)
    requires b <= k <= end && (forall m: nat :: b <= m < k ==> Delimiter(At(s, m))) && (k < end ==> !Delimiter(At(s, k)))
    ensures Split(s, b, end, end - b).None? <==> k == end || (k > b && Connector(At(s, k)) && DigitLike(At(s, k + 1)))
  {
    hide Delimiter, Connector, DigitLike, IsConnect, IsDigitLike, At, Split, Start;
    SplitFails(s, b, end, end - b);
    StartIs(s, end, b);
    StartWithin(s, end, b);
    assert Start(s, end, b) == k;
    ClassesAre(At(s, k));
    ClassesAre(At(s, k + 1));
  }

  lemma StartWithin(s: string, end: nat, b: nat)
    requires b <= end
    ensures b <= Start(s, end, b) <= end
  {
  }
}
