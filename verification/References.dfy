/** The reference area of a parsed content: where it starts and where it ends. */
module References {
  import opened Options
  import opened TagWords
  import opened TagParser
  import opened VirtualContent
  import opened WordParse

  /** The number of the tag RefA. */
  const REF_A: nat := 1

  /** The stack in a word has RefA on it. */
  predicate Inside(w: nat) {
    REF_A in Popped(w)
  }

  lemma InsideNext(w: nat)
    ensures w % TOKEN_MAX_LEN == 0 ==> !Inside(w)
    ensures w % TOKEN_MAX_LEN == REF_A ==> Inside(w)
    ensures w % TOKEN_MAX_LEN != 0 && w % TOKEN_MAX_LEN != REF_A ==> (Inside(w) <==> Inside(w / TOKEN_MAX_LEN))
    ensures w > 0 ==> w / TOKEN_MAX_LEN < w
    ensures w == 0 ==> w % TOKEN_MAX_LEN == 0 && w / TOKEN_MAX_LEN == 0
  {
  }

  /** The pops of one word, until RefA or 0. */
  method HasRefA(word: Word) returns (b: bool)
    ensures b <==> Inside(word)
  {
    hide *;
    var stack := new TagStack();
    stack.word := word;
    InsideNext(word);
    var nowTag := stack.Pop();
    while nowTag > 0
      invariant nowTag == 0 ==> !Inside(word)
      invariant nowTag == REF_A ==> Inside(word)
      invariant nowTag != 0 && nowTag != REF_A ==> (Inside(word) <==> Inside(stack.word))
      decreases stack.word, nowTag
    {
      if nowTag == REF_A { return true; }
      InsideNext(stack.word);
      nowTag := stack.Pop();
    }
    b := false;
  }

  /** The first of n words inside the area, or 0. */
  predicate IsHead(tags: seq<nat>, n: nat, h: nat)
    requires n <= |tags|
  {
    if Entered(tags, n)
    then h < n && Inside(tags[h]) && forall k :: 0 <= k < h ==> !Inside(tags[k])
    else h == 0
  }

  /** Some of the first i words is inside. */
  predicate Entered(tags: seq<nat>, i: nat)
    requires i <= |tags|
  {
    exists k :: 0 <= k < i && Inside(tags[k])
  }

  /** Word i is empty and some word before it is inside. */
  predicate Leaves(tags: seq<nat>, i: nat)
    requires i < |tags|
  {
    tags[i] == 0 && Entered(tags, i)
  }

  lemma EnteredNext(tags: seq<nat>, i: nat)
    requires i < |tags|
    ensures Entered(tags, i + 1) <==> Entered(tags, i) || Inside(tags[i])
  {
  }

  lemma EnteredNone(tags: seq<nat>)
    ensures !Entered(tags, 0)
  {
  }

  /** The first of n words that leaves the area, or 0. */
  predicate IsEnd(tags: seq<nat>, n: nat, e: nat)
    requires n <= |tags|
  {
    if exists i :: 0 <= i < n && Leaves(tags, i)
    then e < n && Leaves(tags, e) && forall i :: 0 <= i < e ==> !Leaves(tags, i)
    else e == 0
  }

  predicate Words(tags: seq<nat>) {
    forall k :: 0 <= k < |tags| ==> tags[k] < WORD_LIMIT
  }

  /** getReferenceHeadOffset. */
  method GetReferenceHeadOffset(v: VirtualContent) returns (h: nat)
    requires v.pclen <= v.tags.Length && Words(v.tags[..])
    ensures IsHead(v.tags[..], v.pclen, h)
  {
    hide Inside;
    h := 0;
    while h < v.pclen
      invariant h <= v.pclen && forall k :: 0 <= k < h ==> !Inside(v.tags[..][k])
    {
      assert v.tags[..][h] == v.tags[h];
      var inside := HasRefA(v.tags[h]);
      if inside { return; }
      h := h + 1;
    }
    h := 0;
  }

  /** getReferenceEndOffset. */
  method GetReferenceEndOffset(v: VirtualContent) returns (e: nat)
    requires v.pclen <= v.tags.Length && Words(v.tags[..])
    ensures IsEnd(v.tags[..], v.pclen, e)
  {
    hide Inside, Entered;
    e := 0;
    EnteredNone(v.tags[..]);
    var seen := false;
    while e < v.pclen
      invariant e <= v.pclen && (seen <==> Entered(v.tags[..], e))
      invariant forall i :: 0 <= i < e ==> !Leaves(v.tags[..], i)
    {
      assert v.tags[..][e] == v.tags[e];
      if seen && v.tags[e] == 0 {
        assert Leaves(v.tags[..], e);
        return;
      }
      var inside := HasRefA(v.tags[e]);
      if inside { seen := true; }
      EnteredNext(v.tags[..], e);
      e := e + 1;
    }
    e := 0;
  }

  // ---------- after a successful parse ----------

  /** When some kept character lies in RefA, its area is found: the head is the first such character,
    * the end is the first later index without open tags, and the head comes first. The entry of zeros
    * behind the last kept character is counted, so an end always exists. This holds whether or not
    * the words stand for the open tags. */
  lemma AreaIsFound(v: VirtualContent, r: Names, ks: seq<Kept>, h: nat, e: nat)
    requires ValidNames(r) && ScanWords(v.content, r, 0, 0) == Some(ks) && v.Parsed(ks)
    requires exists x :: x in ks && Inside(x.word)
    requires v.pclen <= v.tags.Length ==> IsHead(v.tags[..], v.pclen, h) && IsEnd(v.tags[..], v.pclen, e)
    ensures v.pclen <= v.tags.Length && Words(v.tags[..])
    ensures h < e <= |ks| && Inside(ks[h].word) && (forall k :: 0 <= k < h ==> !Inside(ks[k].word))
    ensures (e < |ks| ==> ks[e].word == 0) && (forall k :: h < k < e ==> ks[k].word != 0)
  {
    hide *;
    TagsOf(v, r, ks);
    AreaIn(v.tags[..], ks, h, e);
  }

  lemma TagsOf(v: VirtualContent, r: Names, ks: seq<Kept>)
    requires ValidNames(r) && ScanWords(v.content, r, 0, 0) == Some(ks) && v.Parsed(ks)
    requires exists x :: x in ks && Inside(x.word)
    ensures v.pclen == |ks| + 1 <= v.tags.Length && Words(v.tags[..])
    ensures forall k :: 0 <= k < |ks| ==> v.tags[..][k] == ks[k].word
    ensures v.tags[..][|ks|] == 0 && !Inside(0)
  {
    hide ScanWords, Marks, Inside;
    InsideNext(0);
    TagsTakeRoom(v.content, r, 0, 0);
    KeptFrom(v.content, r, 0, 0);
    forall k | 0 <= k < |ks| ensures v.tags[..][k] == ks[k].word < WORD_LIMIT {
      assert ks[k] in ks;
    }
  }

  lemma AreaIn(tags: seq<nat>, ks: seq<Kept>, h: nat, e: nat)
    requires |ks| < |tags| && exists x :: x in ks && Inside(x.word)
    requires (forall k :: 0 <= k < |ks| ==> tags[k] == ks[k].word) && tags[|ks|] == 0 && !Inside(0)
    requires IsHead(tags, |ks| + 1, h) && IsEnd(tags, |ks| + 1, e)
    ensures h < e <= |ks| && Inside(ks[h].word) && (forall k :: 0 <= k < h ==> !Inside(ks[k].word))
    ensures (e < |ks| ==> ks[e].word == 0) && (forall k :: h < k < e ==> ks[k].word != 0)
  {
    hide Inside;
    var x :| x in ks && Inside(x.word);
    var a :| 0 <= a < |ks| && ks[a] == x;
    assert Inside(tags[a]) && Entered(tags, |ks|) && Entered(tags, |ks| + 1);
    assert Leaves(tags, |ks|);
    forall k | h < k < e ensures ks[k].word != 0 {
      assert Inside(tags[h]) && Entered(tags, k) && !Leaves(tags, k);
    }
  }

  /** With room, the words speak about tags: what a word pops to are the tags open at its character,
    * and the word is 0 exactly when there are none. */
  lemma WordsSpeakOfTags(s: string, r: Names, k: nat)
    requires ValidNames(r) && Roomy(s, r, 0, []) && ScanWords(s, r, 0, 0).Some? && k < |ScanWords(s, r, 0, 0).value|
    ensures var w := ScanWords(s, r, 0, 0).value[k];
      OpenAt(Marks(s, r, 0), w.at, Popped(w.word)) && (w.word == 0 <==> Popped(w.word) == [])
  {
    hide Scan, ScanWords, Roomy, Marks, OpenAt, Encode, Popped, OpenTags;
    var ms := Marks(s, r, 0);
    assert ms[0..] == ms;
    EmptyStack();
    WordsAgree(s, r, 0, []);
    var es := Scan(s, r, 0, []).value;
    NothingOpen(ms);
    EntriesAreRight(s, r, 0, ms, 0);
    StacksAreTags(s, r, 0, []);
    assert es[k] in es;
    PoppedEncode(es[k].stack);
  }

  /** With room, the area told from the tags alone: when RefA, which has number 1, is open at some kept
    * character, the head is the first character with RefA open, and the end the first later one with no tag open. */
  lemma AreaOfTags(v: VirtualContent, r: Names, ks: seq<Kept>, h: nat, e: nat)
    requires ValidNames(r) && Roomy(v.content, r, 0, []) && ScanWords(v.content, r, 0, 0) == Some(ks) && v.Parsed(ks)
    requires exists k :: 0 <= k < |ks| && 1 in TagsAt(v.content, r, ks[k].at)
    requires v.pclen <= v.tags.Length ==> IsHead(v.tags[..], v.pclen, h) && IsEnd(v.tags[..], v.pclen, e)
    ensures v.pclen <= v.tags.Length && h < e <= |ks|
    ensures 1 in TagsAt(v.content, r, ks[h].at) && forall k :: 0 <= k < h ==> 1 !in TagsAt(v.content, r, ks[k].at)
    ensures (e < |ks| ==> TagsAt(v.content, r, ks[e].at) == []) && forall k :: h < k < e ==> TagsAt(v.content, r, ks[k].at) != []
  {
    hide *;
    forall k | 0 <= k < |ks|
      ensures 1 in TagsAt(v.content, r, ks[k].at) <==> Inside(ks[k].word)
      ensures TagsAt(v.content, r, ks[k].at) == [] <==> ks[k].word == 0
    {
      WordsSpeakOfTags(v.content, r, k);
      OpenAtIs(v.content, r, ks[k].at, Popped(ks[k].word));
      InsideIs(ks[k].word);
    }
    var k :| 0 <= k < |ks| && 1 in TagsAt(v.content, r, ks[k].at);
    assert ks[k] in ks && Inside(ks[k].word);
    AreaIsFound(v, r, ks, h, e);
  }

  lemma InsideIs(w: nat)
    ensures Inside(w) <==> 1 in Popped(w)
  {
  }
}
