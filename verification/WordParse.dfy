/** The parse as the program runs it, on words of open tags instead of stacks: a push that finds no room
  * is dropped or wraps around. */
module WordParse {
  import opened Options
  import opened TagWords
  import opened TagParser

  /** A kept character: its position and the word of the tags open around it. */
  datatype Kept = Kept(at: nat, word: nat)

  /** The word after tokenPush of a recognised tag, whose return code the parser ignores. */
  function AfterPush(w: Word, id: nat): Word {
    if w > (WORD_LIMIT - 1) / TOKEN_MAX_LEN then w else Pushed(w, id)
  }

  /** What is kept from position i on, starting from word w; None at a close tag that is not the last
    * digit of the word. */
  function ScanWords(s: string, r: Names, i: nat, w: Word): (ks: Option<seq<Kept>>)
    requires ValidNames(r)
    decreases |s| - i
  {
    if i >= |s| then Some([])
    else match PieceAt(s, r, i)
      case Plain =>
        (match ScanWords(s, r, i + 1, w)
         case Some(ks) => Some([Kept(i, w)] + ks)
         case None => None)
      case Open(id, next) => ScanWords(s, r, next, AfterPush(w, id))
      case Close(id, next) => if w % TOKEN_MAX_LEN == id then ScanWords(s, r, next, w / TOKEN_MAX_LEN) else None
  }

  function WordsOf(es: seq<Entry>): (ks: seq<Kept>)
    ensures |ks| == |es|
  {
    seq(|es|, k requires 0 <= k < |es| => Kept(es[k].at, Encode(es[k].stack)))
  }

  lemma WordsOfMore(e: Entry, es: seq<Entry>)
    ensures WordsOf([e] + es) == [Kept(e.at, Encode(e.stack))] + WordsOf(es)
  {
  }

  // ---------- with room ----------

  lemma EncodeTop(stack: seq<nat>)
    requires AllTags(stack)
    ensures stack == [] ==> Encode(stack) == 0
    ensures stack != [] ==> Tag(stack[0]) && AllTags(stack[1..]) && Encode(stack) % TOKEN_MAX_LEN == stack[0]
                            && Encode(stack) / TOKEN_MAX_LEN == Encode(stack[1..])
  {
    if stack != [] {
      assert stack[0] in stack;
      DivMod(Encode(stack[1..]), stack[0]);
    }
  }

  lemma EncodePush(id: nat, stack: seq<nat>)
    requires Tag(id) && AllTags(stack)
    ensures AllTags([id] + stack) && Encode([id] + stack) == Encode(stack) * TOKEN_MAX_LEN + id
    ensures Encode([id] + stack) < WORD_LIMIT ==> Encode(stack) < WORD_LIMIT && AfterPush(Encode(stack), id) == Encode([id] + stack)
  {
    assert ([id] + stack)[1..] == stack;
    if Encode([id] + stack) < WORD_LIMIT { GuardIsEnough(Encode(stack), id); }
  }

  lemma PieceIsTag(s: string, r: Names, i: nat)
    requires ValidNames(r) && i < |s|
    ensures var p := PieceAt(s, r, i); !p.Plain? ==> Tag(p.id) && p.id != 0 && i + 1 < p.next <= |s|
  {
    hide PieceAt;
  }

  /** As long as every stack has a word, the words are those of the stacks, and both parses succeed
    * or fail together. */
  lemma {:induction false} WordsAgree(s: string, r: Names, i: nat, stack: seq<nat>)
    requires ValidNames(r) && Roomy(s, r, i, stack) && AllTags(stack)
    ensures Encode(stack) < WORD_LIMIT
    ensures var e := Scan(s, r, i, stack);
      ScanWords(s, r, i, Encode(stack)) == if e.None? then None else Some(WordsOf(e.value))
    decreases |s| - i
  {
    hide PieceAt, Encode, AfterPush;
    if i < |s| {
      PieceIsTag(s, r, i);
      EncodeTop(stack);
      match PieceAt(s, r, i)
      case Plain =>
        WordsAgree(s, r, i + 1, stack);
        if Scan(s, r, i + 1, stack).Some? { WordsOfMore(Entry(i, stack), Scan(s, r, i + 1, stack).value); }
      case Open(id, next) =>
        EncodePush(id, stack);
        WordsAgree(s, r, next, [id] + stack);
      case Close(id, next) => if stack != [] && stack[0] == id { WordsAgree(s, r, next, stack[1..]); }
    }
  }

  /** So, with room, the program accepts exactly the texts in which every close tag matches. */
  lemma ParseSucceeds(s: string, r: Names)
    requires ValidNames(r) && Roomy(s, r, 0, [])
    ensures var ms := Marks(s, r, 0); ScanWords(s, r, 0, 0).Some? <==> forall u :: 0 <= u < |ms| ==> Matches(ms, u)
  {
    hide Scan, ScanWords, Roomy, Matches, Marks;
    EmptyStack();
    WordsAgree(s, r, 0, []);
    ScanSucceeds(s, r);
  }

  lemma EmptyStack()
    ensures AllTags([]) && Encode([]) == 0
  {
  }

  // ---------- without room ----------

  /** The tags still open at the end. */
  function EndStack(s: string, r: Names, i: nat, stack: seq<nat>): seq<nat>
    requires ValidNames(r) && Scan(s, r, i, stack).Some?
    decreases |s| - i
  {
    if i >= |s| then stack
    else match PieceAt(s, r, i)
      case Plain => EndStack(s, r, i + 1, stack)
      case Open(id, next) => EndStack(s, r, next, [id] + stack)
      case Close(id, next) => EndStack(s, r, next, stack[1..])
  }

  lemma PoppedSplit(w: nat)
    ensures w % TOKEN_MAX_LEN != 0 ==> |Popped(w)| == 1 + |Popped(w / TOKEN_MAX_LEN)|
    ensures w < TOKEN_MAX_LEN ==> |Popped(w)| <= 1
  {
    if 0 < w < TOKEN_MAX_LEN { assert Popped(w / TOKEN_MAX_LEN) == []; }
  }

  /** A push adds at most one digit, whether it is dropped, wraps around or succeeds. */
  lemma PushAddsOne(w: Word, id: nat)
    requires Tag(id)
    ensures |Popped(AfterPush(w, id))| <= |Popped(w)| + 1
  {
    hide Popped;
    if w <= (WORD_LIMIT - 1) / TOKEN_MAX_LEN {
      PoppedSplit(Pushed(w, id));
      if w * TOKEN_MAX_LEN + id < WORD_LIMIT {
        GuardIsEnough(w, id);
        DivMod(w, id);
      } else {
        Wraps(w, id);
      }
    }
  }

  lemma Wraps(w: Word, id: nat)
    requires Tag(id) && w <= (WORD_LIMIT - 1) / TOKEN_MAX_LEN && w * TOKEN_MAX_LEN + id >= WORD_LIMIT
    ensures w > 0 && Pushed(w, id) < TOKEN_MAX_LEN
  {
  }

  /** With fewer digits than open tags, closing all of them fails. */
  lemma {:induction false} TooFewDigits(s: string, r: Names, i: nat, stack: seq<nat>, w: Word)
    requires ValidNames(r) && Scan(s, r, i, stack).Some? && EndStack(s, r, i, stack) == [] && |Popped(w)| < |stack|
    ensures ScanWords(s, r, i, w).None?
    decreases |s| - i
  {
    hide PieceAt, Popped, AfterPush;
    if i < |s| {
      PieceIsTag(s, r, i);
      match PieceAt(s, r, i)
      case Plain => TooFewDigits(s, r, i + 1, stack, w);
      case Open(id, next) =>
        PushAddsOne(w, id);
        TooFewDigits(s, r, next, [id] + stack, AfterPush(w, id));
      case Close(id, next) =>
        PoppedSplit(w);
        if w % TOKEN_MAX_LEN == id { TooFewDigits(s, r, next, stack[1..], w / TOKEN_MAX_LEN); }
    }
  }

  /** Where the longer stack has no word, the word left behind has too few digits. */
  lemma NoRoomShort(id: nat, stack: seq<nat>)
    requires Tag(id) && AllTags(stack) && Encode(stack) < WORD_LIMIT && Encode([id] + stack) >= WORD_LIMIT
    ensures |Popped(AfterPush(Encode(stack), id))| < |[id] + stack|
  {
    hide Popped, Encode;
    EncodePush(id, stack);
    PoppedEncode(stack);
    var w := Encode(stack);
    if w <= (WORD_LIMIT - 1) / TOKEN_MAX_LEN {
      Wraps(w, id);
      PoppedSplit(Pushed(w, id));
    }
  }

  lemma {:induction false} RoomDecides(s: string, r: Names, i: nat, stack: seq<nat>)
    requires ValidNames(r) && AllTags(stack) && Encode(stack) < WORD_LIMIT
    requires Scan(s, r, i, stack).Some? && EndStack(s, r, i, stack) == []
    ensures ScanWords(s, r, i, Encode(stack)).Some? <==> Roomy(s, r, i, stack)
    decreases |s| - i
  {
    hide PieceAt, Encode, AfterPush, Popped;
    if i < |s| {
      PieceIsTag(s, r, i);
      EncodeTop(stack);
      match PieceAt(s, r, i)
      case Plain => RoomDecides(s, r, i + 1, stack);
      case Open(id, next) =>
        EncodePush(id, stack);
        if Encode([id] + stack) < WORD_LIMIT {
          RoomDecides(s, r, next, [id] + stack);
        } else {
          NoRoomShort(id, stack);
          TooFewDigits(s, r, next, [id] + stack, AfterPush(Encode(stack), id));
        }
      case Close(id, next) =>
        RoomyWord(s, r, next, stack[1..]);
        RoomDecides(s, r, next, stack[1..]);
    }
  }

  lemma RoomyWord(s: string, r: Names, i: nat, stack: seq<nat>)
    requires ValidNames(r)
    ensures Roomy(s, r, i, stack) ==> Encode(stack) < WORD_LIMIT
  {
  }

  /** The tags open at the end, told from the tags alone. */
  lemma {:induction false} EndStackIs(s: string, r: Names, i: nat, ms: seq<Mark>, t: nat)
    requires ValidNames(r) && t <= |ms| && ms[t..] == Marks(s, r, i) && Scan(s, r, i, OpenTags(ms, t)).Some?
    ensures EndStack(s, r, i, OpenTags(ms, t)) == OpenTags(ms, |ms|)
    decreases |s| - i
  {
    hide PieceAt, OpenTags;
    if i < |s| {
      match PieceAt(s, r, i)
      case Plain => EndStackIs(s, r, i + 1, ms, t);
      case Open(id, next) =>
        MarkNext(ms, t, Marks(s, r, next), Mark(true, id, i, next));
        OpenTagsNext(ms, t);
        EndStackIs(s, r, next, ms, t + 1);
      case Close(id, next) =>
        MarkNext(ms, t, Marks(s, r, next), Mark(false, id, i, next));
        OpenTagsTail(ms, t);
        EndStackIs(s, r, next, ms, t + 1);
    }
  }

  /** A text whose tags all match and are all closed. */
  ghost predicate WellNested(s: string, r: Names)
    requires ValidNames(r)
  {
    var ms := Marks(s, r, 0);
    (forall u :: 0 <= u < |ms| ==> Matches(ms, u)) && OpenTags(ms, |ms|) == []
  }

  /** The program accepts a well-nested text exactly when every stack on the way has a word. */
  lemma WellNestedNeedsRoom(s: string, r: Names)
    requires ValidNames(r) && WellNested(s, r)
    ensures ScanWords(s, r, 0, 0).Some? <==> Roomy(s, r, 0, [])
  {
    hide Scan, ScanWords, Roomy, Matches, Marks, OpenTags;
    var ms := Marks(s, r, 0);
    assert ms[0..] == ms;
    EmptyStack();
    ScanSucceeds(s, r);
    NothingOpen(ms);
    EndStackIs(s, r, 0, ms, 0);
    RoomDecides(s, r, 0, []);
  }

  lemma NothingOpen(ms: seq<Mark>)
    ensures OpenTags(ms, 0) == []
  {
  }

  lemma {:induction false} NineDeepHasNoRoom(s: string, r: Names, i: nat, stack: seq<nat>)
    requires ValidNames(r) && AllTags(stack) && Scan(s, r, i, stack).Some? && Depth(s, r, i, |stack|) >= 9
    ensures !Roomy(s, r, i, stack)
    decreases |s| - i
  {
    hide PieceAt, Encode;
    RoomyWord(s, r, i, stack);
    if |stack| >= 9 {
      NineDoNotFit(stack);
    } else {
      PieceIsTag(s, r, i);
      match PieceAt(s, r, i)
      case Plain => NineDeepHasNoRoom(s, r, i + 1, stack);
      case Open(id, next) => NineDeepHasNoRoom(s, r, next, [id] + stack);
      case Close(id, next) =>
        EncodeTop(stack);
        NineDeepHasNoRoom(s, r, next, stack[1..]);
    }
  }

  /** A well-nested text is accepted when at most seven tags are ever open at once, and refused when
    * nine are. */
  lemma DepthDecides(s: string, r: Names)
    requires ValidNames(r) && WellNested(s, r)
    ensures Depth(s, r, 0, 0) <= 7 ==> ScanWords(s, r, 0, 0).Some?
    ensures Depth(s, r, 0, 0) >= 9 ==> ScanWords(s, r, 0, 0).None?
  {
    hide ScanWords, Scan, Roomy, Depth, Marks, Matches, OpenTags;
    EmptyStack();
    WellNestedNeedsRoom(s, r);
    ScanSucceeds(s, r);
    if Depth(s, r, 0, 0) <= 7 { SevenDeepIsRoomy(s, r, 0, []); }
    if Depth(s, r, 0, 0) >= 9 { NineDeepHasNoRoom(s, r, 0, []); }
  }

  // ---------- a family of texts ----------

  /** The tag <a> opened n times and then closed n times. */
  function Nested(n: nat): (s: string)
    ensures |s| == 7 * n
  {
    seq(3 * n, i requires 0 <= i => "<a>"[i % 3]) + seq(4 * n, i requires 0 <= i => "</a>"[i % 4])
  }

  function Repeated(id: nat, n: nat): (ids: seq<nat>)
    ensures |ids| == n
  {
    seq(n, _ => id)
  }

  lemma NestedOpens(n: nat, k: nat)
    requires k < n
    ensures var s := Nested(n); s[3 * k] == '<' && s[3 * k + 1] == 'a' && s[3 * k + 2] == '>' && s[3 * k + 1..3 * k + 2] == "a"
  {
    var s := Nested(n);
    assert s[3 * k] == "<a>"[(3 * k) % 3] && s[3 * k + 1] == "<a>"[(3 * k + 1) % 3] && s[3 * k + 2] == "<a>"[(3 * k + 2) % 3];
  }

  lemma NestedCloses(n: nat, k: nat)
    requires k < n
    ensures var s, i := Nested(n), 3 * n + 4 * k; s[i] == '<' && s[i + 1] == '/' && s[i + 2] == 'a' && s[i + 3] == '>' && s[i + 2..i + 3] == "a"
  {
    var s, i := Nested(n), 3 * n + 4 * k;
    assert s[i] == "</a>"[(4 * k) % 4] && s[i + 1] == "</a>"[(4 * k + 1) % 4];
    assert s[i + 2] == "</a>"[(4 * k + 2) % 4] && s[i + 3] == "</a>"[(4 * k + 3) % 4];
  }

  lemma NestedPieces(n: nat, k: nat, r: Names)
    requires k < n && ValidNames(r) && TagNumber(r, "a") != 0
    ensures PieceAt(Nested(n), r, 3 * k) == Open(TagNumber(r, "a"), 3 * k + 3)
    ensures PieceAt(Nested(n), r, 3 * n + 4 * k) == Close(TagNumber(r, "a"), 3 * n + 4 * k + 4)
  {
    hide Nested, TagNumber;
    NestedOpens(n, k);
    NestedCloses(n, k);
    OneLetter(Nested(n), r, 3 * k + 1);
    OneLetter(Nested(n), r, 3 * n + 4 * k + 2);
  }

  lemma OneLetter(s: string, r: Names, from: nat)
    requires from + 1 < |s| && s[from] == 'a' && s[from + 1] == '>' && s[from..from + 1] == "a"
    requires ValidNames(r) && TagNumber(r, "a") != 0
    ensures NameAt(s, r, from, 0) == Some((TagNumber(r, "a"), 1))
  {
    hide TagNumber;
    assert NameAt(s, r, from, 1) == Some((TagNumber(r, "a"), 1));
  }

  lemma RepeatedMore(id: nat, n: nat)
    ensures Repeated(id, n + 1) == [id] + Repeated(id, n) && Repeated(id, n + 1)[1..] == Repeated(id, n) && Repeated(id, 0) == []
  {
  }

  /** From position i on, every tag matches, none stays open, and depth many are open at most. */
  predicate ClosesAll(s: string, r: Names, i: nat, stack: seq<nat>, depth: nat)
    requires ValidNames(r)
  {
    Scan(s, r, i, stack).Some? && EndStack(s, r, i, stack) == [] && Depth(s, r, i, |stack|) == depth
  }

  /** Behind k of its close tags. */
  lemma {:induction false} NestedEnd(n: nat, k: nat, r: Names)
    requires k <= n && ValidNames(r) && TagNumber(r, "a") != 0
    ensures ClosesAll(Nested(n), r, 3 * n + 4 * k, Repeated(TagNumber(r, "a"), n - k), n - k)
    decreases n - k
  {
    hide Nested, TagNumber, PieceAt, Repeated;
    RepeatedMore(TagNumber(r, "a"), if k < n then n - k - 1 else 0);
    if k < n {
      NestedPieces(n, k, r);
      NestedEnd(n, k + 1, r);
    }
  }

  /** Behind k of its open tags. */
  lemma {:induction false} NestedStart(n: nat, k: nat, r: Names)
    requires k <= n && ValidNames(r) && TagNumber(r, "a") != 0
    ensures ClosesAll(Nested(n), r, 3 * k, Repeated(TagNumber(r, "a"), k), n)
    decreases n - k
  {
    hide Nested, TagNumber, PieceAt, Repeated;
    if k < n {
      RepeatedMore(TagNumber(r, "a"), k);
      NestedPieces(n, k, r);
      NestedStart(n, k + 1, r);
    } else {
      NestedEnd(n, 0, r);
    }
  }

  /** These texts are well nested and n deep, for any table that knows the tag. */
  lemma NestedIsWell(n: nat, r: Names)
    requires ValidNames(r) && TagNumber(r, "a") != 0
    ensures WellNested(Nested(n), r) && Depth(Nested(n), r, 0, 0) == n
  {
    hide Nested, TagNumber, Scan, EndStack, Depth, Marks, Matches, OpenTags;
    var s := Nested(n);
    var ms := Marks(s, r, 0);
    assert ms[0..] == ms;
    NestedStart(n, 0, r);
    RepeatedMore(TagNumber(r, "a"), 0);
    NothingOpen(ms);
    ScanSucceeds(s, r);
    EndStackIs(s, r, 0, ms, 0);
  }

  /** A table that knows one tag, under number 1. */
  function OneTag(): (r: Names)
    ensures ValidNames(r) && TagNumber(r, "a") == 1
  {
    var r := Names(seq(TOKEN_MAX_LEN, i => if i == 1 then "a" else ""), seq(TOKEN_MAX_LEN, i => i == 1));
    assert r.active[1] && r.name[1] == "a" && NumberFrom(r, "a", 1) == 1;
    r
  }

  /** A text nine deep that the program refuses although all its tags match and are closed. */
  lemma NineDeepRefused()
    ensures WellNested(Nested(9), OneTag()) && ScanWords(Nested(9), OneTag(), 0, 0).None?
  {
    hide *;
    NestedIsWell(9, OneTag());
    DepthDecides(Nested(9), OneTag());
  }

  // ---------- room for what is kept ----------

  lemma {:induction false} KeptFrom(s: string, r: Names, i: nat, w: Word)
    requires ValidNames(r) && ScanWords(s, r, i, w).Some?
    ensures |ScanWords(s, r, i, w).value| <= if i < |s| then |s| - i else 0
    ensures forall k :: k in ScanWords(s, r, i, w).value ==> k.at < |s| && k.word < WORD_LIMIT
    decreases |s| - i
  {
    hide PieceAt, AfterPush;
    if i < |s| {
      match PieceAt(s, r, i)
      case Plain => KeptFrom(s, r, i + 1, w);
      case Open(id, next) => KeptFrom(s, r, next, AfterPush(w, id));
      case Close(id, next) => KeptFrom(s, r, next, w / TOKEN_MAX_LEN);
    }
  }

  /** All positions are kept exactly when there is no recognised tag; then nothing is ever open. */
  lemma {:induction false} TagsTakeRoom(s: string, r: Names, i: nat, w: Word)
    requires ValidNames(r) && i <= |s|
    ensures Marks(s, r, i) == [] ==> ScanWords(s, r, i, w).Some?
    ensures ScanWords(s, r, i, w).Some? ==> (|ScanWords(s, r, i, w).value| == |s| - i <==> Marks(s, r, i) == [])
    ensures Marks(s, r, i) == [] ==> forall k :: k in ScanWords(s, r, i, w).value ==> k.word == w
    decreases |s| - i
  {
    hide PieceAt, AfterPush;
    if i < |s| {
      match PieceAt(s, r, i)
      case Plain => TagsTakeRoom(s, r, i + 1, w);
      case Open(id, next) => if ScanWords(s, r, i, w).Some? { KeptFrom(s, r, next, AfterPush(w, id)); }
      case Close(id, next) => if ScanWords(s, r, i, w).Some? { KeptFrom(s, r, next, w / TOKEN_MAX_LEN); }
    }
  }
}
