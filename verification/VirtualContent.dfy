/** The parsed content: kept characters, where they came from, and the tags open around each. */
module VirtualContent {
  import opened Options
  import opened TagWords
  import opened TagParser
  import opened WordParse
  import opened Texts

  /** The characters kept so far, followed by those of the rest. */
  function After(done: seq<Kept>, r: Option<seq<Kept>>): Option<seq<Kept>> {
    match r
    case None => None
    case Some(ks) => Some(done + ks)
  }

  lemma StepEnd(s: string, r: Names, w: Word, done: seq<Kept>)
    requires ValidNames(r)
    ensures After(done, ScanWords(s, r, |s|, w)) == Some(done)
  {
    assert done + [] == done;
  }

  lemma StepPlain(s: string, r: Names, i: nat, w: Word, done: seq<Kept>)
    requires ValidNames(r) && i < |s| && PieceAt(s, r, i).Plain?
    ensures After(done, ScanWords(s, r, i, w)) == After(done + [Kept(i, w)], ScanWords(s, r, i + 1, w))
  {
    hide PieceAt;
    var rest := ScanWords(s, r, i + 1, w);
    if rest.Some? { assert done + ([Kept(i, w)] + rest.value) == done + [Kept(i, w)] + rest.value; }
  }

  lemma StepTag(s: string, r: Names, i: nat, w: Word)
    requires ValidNames(r) && i < |s| && !PieceAt(s, r, i).Plain?
    ensures var p := PieceAt(s, r, i);
      && Tag(p.id) && 0 < p.id < TOKEN_MAX_LEN < WORD_LIMIT && i < p.next <= |s|
      && (p.Open? ==> ScanWords(s, r, i, w) == ScanWords(s, r, p.next, AfterPush(w, p.id)))
      && (p.Close? && w % TOKEN_MAX_LEN != p.id ==> ScanWords(s, r, i, w) == None)
      && (p.Close? && w % TOKEN_MAX_LEN == p.id ==> ScanWords(s, r, i, w) == ScanWords(s, r, p.next, w / TOKEN_MAX_LEN))
  {
    hide PieceAt, AfterPush;
  }

  lemma AfterPushIs(w: Word, id: nat)
    ensures w > (WORD_LIMIT - 1) / TOKEN_MAX_LEN ==> AfterPush(w, id) == w
    ensures w <= (WORD_LIMIT - 1) / TOKEN_MAX_LEN ==> AfterPush(w, id) == Pushed(w, id)
  {
  }

  /** The kept characters, their positions and their words; zeros behind them. */
  ghost predicate Recorded(ks: seq<Kept>, s: string, pcontent: seq<char>, offset: seq<nat>, tags: seq<nat>) {
    && |ks| <= |offset| == |tags| && |pcontent| == |tags| + 1
    && (forall k :: 0 <= k < |ks| ==> ks[k].at < |s| && pcontent[k] == s[ks[k].at] && offset[k] == ks[k].at && tags[k] == ks[k].word)
    && (forall k :: |ks| <= k < |tags| ==> pcontent[k] == NUL && offset[k] == 0 && tags[k] == 0)
    && pcontent[|tags|] == NUL
  }

  lemma RecordedMore(ks: seq<Kept>, s: string, p: seq<char>, o: seq<nat>, t: seq<nat>, e: Kept)
    requires Recorded(ks, s, p, o, t) && |ks| < |t| && e.at < |s|
    ensures |o| == |t| && |p| == |t| + 1
    ensures Recorded(ks + [e], s, p[|ks| := s[e.at]], o[|ks| := e.at], t[|ks| := e.word])
  {
  }

  class VirtualContent {
    var content: string
    var pcontent: array<char>
    var offset: array<nat>
    var tags: array<nat>
    var pclen: nat

    constructor ()
      ensures content == "" && pclen == 0
    {
      content, pclen := "", 0;
      pcontent, offset, tags := new char[0], new nat[0], new nat[0];
    }

    /** The name closed by '>' in front of which a tag starts. */
    static method FindName(s: string, r: Names, from: nat) returns (found: bool, id: nat, j: nat)
      requires ValidNames(r)
      ensures found <==> NameAt(s, r, from, 0).Some?
      ensures found ==> NameAt(s, r, from, 0) == Some((id, j))
    {
      hide TagNumber;
      id, j := 0, 0;
      while j < MAX_TOKEN_LENGTH
        invariant j <= MAX_TOKEN_LENGTH && NameAt(s, r, from, j) == NameAt(s, r, from, 0)
      {
        if At(s, from + j) == '>' {
          id := GetTokenId(r, s[from..from + j]);
          if id != 0 { return true, id, j; }
        }
        j := j + 1;
      }
      found := false;
    }

    /** One kept character. */
    method Keep(k: nat, c: char, i: nat, word: Word, ghost ks: seq<Kept>, ghost s: string)
      requires Recorded(ks, s, pcontent[..], offset[..], tags[..]) && k == |ks| < tags.Length && i < |s|
      requires c == s[i] && offset != tags
      modifies pcontent, offset, tags
      ensures Recorded(ks + [Kept(i, word)], s, pcontent[..], offset[..], tags[..])
    {
      hide *;
      RecordedMore(ks, s, pcontent[..], offset[..], tags[..], Kept(i, word));
      pcontent[k] := c;
      offset[k] := i;
      tags[k] := word;
    }

    /** The parse left these characters. */
    ghost predicate Parsed(ks: seq<Kept>)
      reads this, pcontent, offset, tags
    {
      pclen == |ks| + 1 && tags.Length == |content| && Recorded(ks, content, pcontent[..], offset[..], tags[..])
    }

    /** readFileToParse, once the text has been read: zeroed arrays of its length. */
    method ReadToParse(text: string)
      modifies this
      ensures content == text && tags.Length == |text| && fresh(pcontent) && fresh(offset) && fresh(tags) && offset != tags
      ensures Recorded([], text, pcontent[..], offset[..], tags[..])
    {
      content := text;
      pcontent := new char[|text| + 1](_ => NUL);
      offset := new nat[|text|](_ => 0);
      tags := new nat[|text|](_ => 0);
    }

    /** parseFile, once the text has been read. */
    method ParseFile(text: string, r: Names) returns (ok: bool)
      requires ValidNames(r)
      modifies this
      ensures content == text && fresh(pcontent) && fresh(offset) && fresh(tags)
      ensures ok <==> ScanWords(text, r, 0, 0).Some?
      ensures ok ==> Parsed(ScanWords(text, r, 0, 0).value)
    {
      hide *;
      ReadToParse(text);
      var nowTag := new TagStack();
      var i, k: nat := 0, 0;
      ghost var done: seq<Kept> := [];
      AfterNone(ScanWords(text, r, 0, 0));
      while i < |text|
        invariant i <= |text| && k == |done| <= i
        invariant content == text && tags.Length == |text|
        invariant fresh(pcontent) && fresh(offset) && fresh(tags) && fresh(nowTag) && offset != tags
        invariant Recorded(done, text, pcontent[..], offset[..], tags[..])
        invariant After(done, ScanWords(text, r, i, nowTag.word)) == ScanWords(text, r, 0, 0)
        decreases |text| - i
      {
        var piece := FindPiece(text, r, i);
        match piece
        case Plain =>
          StepPlain(text, r, i, nowTag.word, done);
          Keep(k, text[i], i, nowTag.word, done, text);
          done, i, k := done + [Kept(i, nowTag.word)], i + 1, k + 1;
        case Open(id, next) =>
          StepTag(text, r, i, nowTag.word);
          AfterPushIs(nowTag.word, id);
          var code := nowTag.Push(id);
          i := next;
        case Close(id, next) =>
          StepTag(text, r, i, nowTag.word);
          var top := nowTag.Pop();
          if top != id {
            AfterNothing(done);
            return false;
          }
          i := next;
      }
      StepEnd(text, r, nowTag.word, done);
      pclen := k + 1;
      ParsedIf(this, done);
      ok := true;
    }

    /** The test for a tag at position i: names of close tags are tried behind "</", those of open
      * tags behind "<". */
    static method FindPiece(s: string, r: Names, i: nat) returns (p: Piece)
      requires ValidNames(r) && i < |s|
      ensures p == PieceAt(s, r, i)
    {
      hide NameAt;
      if s[i] == '<' {
        if At(s, i + 1) == '/' {
          var found, id, j := FindName(s, r, i + 2);
          if found { return Close(id, i + j + 3); }
        } else {
          var found, id, j := FindName(s, r, i + 1);
          if found { return Open(id, i + j + 2); }
        }
      }
      p := Plain;
    }
  }

  lemma AfterNone(r: Option<seq<Kept>>)
    ensures After([], r) == r
  {
    if r.Some? { assert [] + r.value == r.value; }
  }

  lemma AfterNothing(done: seq<Kept>)
    ensures After(done, None) == None
  {
  }

  lemma ParsedIf(v: VirtualContent, ks: seq<Kept>)
    requires v.pclen == |ks| + 1 && v.tags.Length == |v.content|
    requires Recorded(ks, v.content, v.pcontent[..], v.offset[..], v.tags[..])
    ensures v.Parsed(ks)
  {
  }

  /** What a successful parse of a text with room for every stack leaves: the kept characters in order,
    * each with a word that pops to exactly the tags open at its position; every other position is
    * inside one recognised tag. */
  lemma ContentIsRight(v: VirtualContent, r: Names)
    requires ValidNames(r) && Roomy(v.content, r, 0, [])
    requires ScanWords(v.content, r, 0, 0).Some? && v.Parsed(ScanWords(v.content, r, 0, 0).value)
    ensures v.offset.Length == v.tags.Length == |v.content| && v.pcontent.Length == |v.content| + 1 && v.pclen <= |v.content| + 1
    ensures forall k :: 0 <= k < v.pclen - 1 ==>
              v.offset[k] < |v.content| && v.pcontent[k] == v.content[v.offset[k]]
              && OpenAt(Marks(v.content, r, 0), v.offset[k], Popped(v.tags[k]))
    ensures forall a, b :: 0 <= a < b < v.pclen - 1 ==> v.offset[a] < v.offset[b]
    ensures forall p :: 0 <= p < |v.content| ==>
              ((exists k :: 0 <= k < v.pclen - 1 && v.offset[k] == p) <==> !InTag(Marks(v.content, r, 0), 0, p))
  {
    hide Scan, ScanWords, Roomy, Marks, OpenAt, InTag, Encode, Popped, OpenTags;
    var s, ms := v.content, Marks(v.content, r, 0);
    assert ms[0..] == ms;
    EmptyStack();
    WordsAgree(s, r, 0, []);
    var es := Scan(s, r, 0, []).value;
    NothingOpen(ms);
    EntriesAreRight(s, r, 0, ms, 0);
    StacksAreTags(s, r, 0, []);
    forall k | 0 <= k < v.pclen - 1
      ensures v.offset[k] < |s| && v.pcontent[k] == s[v.offset[k]] && OpenAt(ms, v.offset[k], Popped(v.tags[k]))
    {
      assert es[k] in es;
      PoppedEncode(es[k].stack);
    }
    forall p | 0 <= p < |s| ensures (exists k :: 0 <= k < v.pclen - 1 && v.offset[k] == p) <==> !InTag(ms, 0, p) {
      KeptOrTag(s, r, 0, [], p);
      if Stored(es, p) {
        var a :| 0 <= a < |es| && es[a].at == p;
        assert v.offset[a] == p;
      }
    }
  }

  /** For a well-nested text that the program accepts, nothing has to be known about room. */
  lemma WellNestedContentIsRight(v: VirtualContent, r: Names)
    requires ValidNames(r) && WellNested(v.content, r)
    requires ScanWords(v.content, r, 0, 0).Some? && v.Parsed(ScanWords(v.content, r, 0, 0).value)
    ensures v.offset.Length == v.tags.Length == |v.content| && v.pclen <= |v.content| + 1
    ensures forall k :: 0 <= k < v.pclen - 1 ==> OpenAt(Marks(v.content, r, 0), v.offset[k], Popped(v.tags[k]))
  {
    hide *;
    WellNestedNeedsRoom(v.content, r);
    ContentIsRight(v, r);
  }

  /** The zero entry behind the kept characters lies inside the array exactly when some tag was recognised. */
  lemma ZeroEntryInside(v: VirtualContent, r: Names)
    requires ValidNames(r)
    requires ScanWords(v.content, r, 0, 0).Some? && v.Parsed(ScanWords(v.content, r, 0, 0).value)
    ensures v.pclen <= v.tags.Length <==> Marks(v.content, r, 0) != []
  {
    hide ScanWords, Marks;
    TagsTakeRoom(v.content, r, 0, 0);
    KeptFrom(v.content, r, 0, 0);
  }

  /** A text without angle brackets: the count is one more than the array holds. */
  lemma PlainText(v: VirtualContent, r: Names)
    requires ValidNames(r) && v.content == "a" && ScanWords("a", r, 0, 0).Some? && v.Parsed(ScanWords("a", r, 0, 0).value)
    ensures Marks("a", r, 0) == [] && v.pclen == 2 && v.tags.Length == 1
  {
    hide ScanWords;
    assert PieceAt("a", r, 0).Plain?;
    assert Marks("a", r, 1) == [];
    TagsTakeRoom("a", r, 0, 0);
  }
}
