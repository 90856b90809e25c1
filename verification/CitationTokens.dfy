/** The words of a citation area pass through two queues, and the labels found for them cut the area
  * into chunks. */
module CitationTokens {
  import opened Options
  import opened SnapshotQueue
  import opened Tokenizer
  import opened Texts

  const SINGLEWORDLEN: nat := 256

  /** The mark carried on to the next word: the last delimiter taken with this one, unless the word ends
    * at a blank. A mark that the cut does not report is none. */
  function Carried(mark: Option<char>, t: Token): Option<char> {
    if IsBlank(t.next) then mark else t.last
  }

  /** All words from position b on, as long as cutting succeeds. In front of each word stands the mark
    * carried on from the words before it; the one found by cutting is overwritten. */
  function Stream(s: string, b: nat, end: nat, mark: Option<char>): (ts: seq<Token>)
    requires b <= end
    ensures b + Total(ts) <= end && forall k :: 0 <= k < |ts| ==> ts[k].len > 0
    decreases end - b
  {
    match Split(s, b, end, SINGLEWORDLEN)
    case None => []
    case Some(t) =>
      SplitKeeps(s, b, end, SINGLEWORDLEN);
      TotalOne(t.(before := mark), Stream(s, b + t.len, end, Carried(mark, t)));
      [t.(before := mark)] + Stream(s, b + t.len, end, Carried(mark, t))
  }

  /** The mark in front of the first word. */
  const BLANK: Option<char> := Some(' ')

  /** The last mark reported by a word of ts that does not end at a blank, or the first mark. */
  function MarkBehind(ts: seq<Token>, mark: Option<char>): Option<char> {
    if ts == [] then mark else Carried(MarkBehind(ts[..|ts| - 1], mark), ts[|ts| - 1])
  }

  lemma {:induction false} MarkBehindMore(t: Token, ts: seq<Token>, mark: Option<char>)
    ensures MarkBehind([t] + ts, mark) == MarkBehind(ts, Carried(mark, t))
  {
    if ts == [] {
      assert [t] + ts == [t] && [t][..0] == [];
    } else {
      MarkBehindMore(t, ts[..|ts| - 1], mark);
      assert ([t] + ts)[..|ts|] == [t] + ts[..|ts| - 1];
    }
  }

  /** What MarkBehind gives, by indices: the last mark taken with the last word that does not end at a
    * blank. */
  lemma {:induction false} MarkBehindIs(ts: seq<Token>, mark: Option<char>)
    ensures (forall i :: 0 <= i < |ts| ==> ts[i].next in " \n\t\r") ==> MarkBehind(ts, mark) == mark
    ensures forall j :: 0 <= j < |ts| && ts[j].next !in " \n\t\r" && (forall i :: j < i < |ts| ==> ts[i].next in " \n\t\r") ==>
              MarkBehind(ts, mark) == ts[j].last
    decreases |ts|
  {
    if ts != [] {
      var rest, t := ts[..|ts| - 1], ts[|ts| - 1];
      MarkBehindIs(rest, mark);
      assert IsBlank(t.next) <==> t.next in " \n\t\r";
      forall j | 0 <= j < |ts| && ts[j].next !in " \n\t\r" && (forall i :: j < i < |ts| ==> ts[i].next in " \n\t\r")
        ensures MarkBehind(ts, mark) == ts[j].last
      {
        if j < |rest| { assert rest[j] == ts[j] && forall i :: j < i < |rest| ==> rest[i] == ts[i]; }
      }
    }
  }

  /** In front of every word of the stream stands what the words before it leave. */
  lemma {:induction false} MarksLeft(s: string, b: nat, end: nat, mark: Option<char>, k: nat)
    requires b <= end && k < |Stream(s, b, end, mark)|
    ensures Stream(s, b, end, mark)[k].before == MarkBehind(Stream(s, b, end, mark)[..k], mark)
    decreases end - b
  {
    hide *;
    StreamNext(s, b, end, mark);
    var t := Split(s, b, end, SINGLEWORDLEN).value;
    var rest := Stream(s, b + t.len, end, Carried(mark, t));
    Prefix(t.(before := mark), rest, k);
    if k == 0 {
      NoMark(mark);
    } else {
      MarksLeft(s, b + t.len, end, Carried(mark, t), k - 1);
      MarkBehindMore(t.(before := mark), rest[..k - 1], mark);
      SameCarried(mark, t, mark);
    }
  }

  /** The mark in front of a word is the last delimiter reported with the last earlier word that does not
    * end at a blank; without such a word it is the mark at the start. */
  lemma MarksCarry(s: string, b: nat, end: nat, mark: Option<char>, k: nat)
    requires b <= end && k < |Stream(s, b, end, mark)|
    ensures var ts := Stream(s, b, end, mark);
      && ((forall i :: 0 <= i < k ==> ts[i].next in " \n\t\r") ==> ts[k].before == mark)
      && (forall j :: 0 <= j < k && ts[j].next !in " \n\t\r" && (forall i :: j < i < k ==> ts[i].next in " \n\t\r") ==>
            ts[k].before == ts[j].last)
  {
    hide *;
    var ts := Stream(s, b, end, mark);
    MarksLeft(s, b, end, mark, k);
    MarkBehindIs(ts[..k], mark);
    forall j | 0 <= j < k && ts[j].next !in " \n\t\r" && (forall i :: j < i < k ==> ts[i].next in " \n\t\r")
      ensures ts[k].before == ts[j].last
    {
      assert ts[..k][j] == ts[j];
    }
  }

  /** The words of the stream are cut one behind the other, each with room for 256 characters, as long as
    * cutting succeeds. */
  lemma {:induction false} StreamIsCut(s: string, b: nat, end: nat, mark: Option<char>, k: nat)
    requires b <= end && k <= |Stream(s, b, end, mark)|
    ensures var ts := Stream(s, b, end, mark);
      var at := b + Total(ts[..k]);
      at <= end
      && if k == |ts| then Split(s, at, end, 256).None?
         else Split(s, at, end, 256).Some? && ts[k] == Split(s, at, end, 256).value.(before := ts[k].before)
    decreases end - b
  {
    hide Stream, Split, Total, Carried;
    StreamNext(s, b, end, mark);
    NoTotal();
    var ts := Stream(s, b, end, mark);
    assert ts[..0] == [];
    if k > 0 {
      var t := Split(s, b, end, SINGLEWORDLEN).value;
      var rest := Stream(s, b + t.len, end, Carried(mark, t));
      StreamIsCut(s, b + t.len, end, Carried(mark, t), k - 1);
      Prefix(t.(before := mark), rest, k - 1);
      assert ts[..k] == [t.(before := mark)] + rest[..k - 1];
      TotalOne(t.(before := mark), rest[..k - 1]);
      if k < |ts| { assert ts[k] == rest[k - 1]; }
    }
  }

  lemma Prefix(x: Token, rest: seq<Token>, k: nat)
    requires k <= |rest|
    ensures var ts := [x] + rest;
      if k == 0 then ts[..k] == [] && ts[k] == x else ts[..k] == [x] + rest[..k - 1] && ts[k] == rest[k - 1]
  {
  }

  lemma NoMark(mark: Option<char>)
    ensures MarkBehind([], mark) == mark
  {
  }

  lemma SameCarried(mark: Option<char>, t: Token, m: Option<char>)
    ensures Carried(mark, t.(before := m)) == Carried(mark, t)
  {
  }

  /** The number of characters the words take. */
  function Total(ts: seq<Token>): nat {
    if ts == [] then 0 else ts[0].len + Total(ts[1..])
  }

  lemma TotalOne(t: Token, ts: seq<Token>)
    ensures Total([t] + ts) == t.len + Total(ts)
  {
  }

  lemma {:induction false} TotalConcat(a: seq<Token>, b: seq<Token>)
    ensures Total(a + b) == Total(a) + Total(b)
  {
    if a == [] {
      assert a + b == b;
    } else {
      TotalConcat(a[1..], b);
      assert (a + b)[1..] == a[1..] + b;
    }
  }

  // ---------- what the stream covers ----------

  /** Every word of the stream fits its buffer. */
  predicate AllFit(s: string, b: nat, end: nat)
    requires b <= end
    decreases end - b
  {
    match Split(s, b, end, end - b)
    case None => true
    case Some(t) =>
      SplitKeeps(s, b, end, end - b);
      |t.word| <= SINGLEWORDLEN && AllFit(s, b + t.len, end)
  }

  /** Behind a word stands no delimiter. */
  lemma AfterWord(s: string, b: nat, end: nat, room: nat)
    requires b <= end && Split(s, b, end, room).Some?
    ensures var e := b + Split(s, b, end, room).value.len; e == end || (e < end && !IsDelimiter(At(s, e)))
  {
    hide Collect, SkipGap, IsDelimiter, At;
    SplitKeeps(s, b, end, room);
    var r := Collect(s, b, end, room, b, [], false, false, 0);
    DelimitersStop(s, end, if IsBlank(r.next) then SkipGap(s, end, r.at) else r.at);
  }

  lemma {:induction false} DelimitersStop(s: string, end: nat, i: nat)
    requires i <= end
    ensures var e := Delimiters(s, end, i); e == end || !IsDelimiter(At(s, e))
    decreases end - i
  {
    hide IsDelimiter;
    if i < end && IsDelimiter(At(s, i)) { DelimitersStop(s, end, i + 1); }
  }

  lemma NoDelimiterFirst(s: string, b: nat, end: nat)
    requires b < end && !IsDelimiter(At(s, b))
    ensures !NoWord(s, b, end)
  {
  }

  /** When every word fits, the stream takes the whole area, unless the area has no word to start
    * with; then it is empty. */
  lemma {:induction false} StreamReachesEnd(s: string, b: nat, end: nat, mark: Option<char>)
    requires b <= end && AllFit(s, b, end)
    ensures NoWord(s, b, end) <==> Stream(s, b, end, mark) == []
    ensures !NoWord(s, b, end) ==> b + Total(Stream(s, b, end, mark)) == end
    decreases end - b
  {
    hide Split, NoWord, IsDelimiter, At;
    SplitFails(s, b, end, SINGLEWORDLEN);
    if !NoWord(s, b, end) {
      var t := Split(s, b, end, end - b).value;
      SplitKeeps(s, b, end, end - b);
      AfterWord(s, b, end, end - b);
      StreamReachesEnd(s, b + t.len, end, Carried(mark, t));
      TotalOne(t.(before := mark), Stream(s, b + t.len, end, Carried(mark, t)));
      if b + t.len < end { NoDelimiterFirst(s, b + t.len, end); } else { NothingLeft(s, end, mark); }
    }
  }

  lemma NothingLeft(s: string, end: nat, mark: Option<char>)
    ensures NoWord(s, end, end) && Stream(s, end, end, mark) == []
  {
    hide Split, NoWord, IsDelimiter, At;
    if Split(s, end, end, SINGLEWORDLEN).Some? {
      SplitKeeps(s, end, end, SINGLEWORDLEN);
      assert false;
    }
    StartAtEnd(s, end);
  }

  lemma StartAtEnd(s: string, end: nat)
    ensures NoWord(s, end, end)
  {
  }

  lemma {:induction false} StreamStopsShort(s: string, b: nat, end: nat, mark: Option<char>)
    requires b <= end && !AllFit(s, b, end)
    ensures b + Total(Stream(s, b, end, mark)) < end
    decreases end - b
  {
    hide Split, NoWord, IsDelimiter, At;
    SplitFails(s, b, end, SINGLEWORDLEN);
    SplitKeeps(s, b, end, end - b);
    var t := Split(s, b, end, end - b).value;
    if |t.word| <= SINGLEWORDLEN {
      StreamStopsShort(s, b + t.len, end, Carried(mark, t));
      TotalOne(t.(before := mark), Stream(s, b + t.len, end, Carried(mark, t)));
    }
  }

  /** The words take the whole area exactly when each of them fits and the area starts with one. */
  lemma StreamCovers(s: string, b: nat, end: nat, mark: Option<char>)
    requires b <= end
    ensures b + Total(Stream(s, b, end, mark)) == end <==> AllFit(s, b, end) && (b == end || !NoWord(s, b, end))
  {
    hide AllFit, NoWord, Stream;
    if AllFit(s, b, end) { StreamReachesEnd(s, b, end, mark); } else { StreamStopsShort(s, b, end, mark); }
    NothingLeft(s, end, mark);
    NoTotal();
  }

  lemma NoTotal()
    ensures Total([]) == 0
  {
  }

  // ---------- the main loop ----------

  lemma StreamNext(s: string, b: nat, end: nat, mark: Option<char>)
    requires b <= end
    ensures Split(s, b, end, SINGLEWORDLEN).None? ==> Stream(s, b, end, mark) == []
    ensures Split(s, b, end, SINGLEWORDLEN).Some? ==>
      var t := Split(s, b, end, SINGLEWORDLEN).value;
      0 < t.len && b + t.len <= end && Stream(s, b, end, mark) == [t.(before := mark)] + Stream(s, b + t.len, end, Carried(mark, t))
  {
    hide Split, Alnums, Span;
    if Split(s, b, end, SINGLEWORDLEN).Some? { SplitKeeps(s, b, end, SINGLEWORDLEN); }
  }

  /** predftEnQueue: one more word, if the queue has room and there is one. */
  method PredftEnQueue(q: Queue<Token>, s: string, current: nat, mark: Option<char>, end: nat)
    returns (ok: bool, current': nat, mark': Option<char>)
    requires q.Valid() && current <= end
    modifies q, q.data
    ensures q.Valid() && q.front == old(q.front) && q.data[q.front] == old(q.data[q.front])
    ensures ok <==> |old(q.Contents())| < CNSQSIZE - 1 && Stream(s, current, end, mark) != []
    ensures ok ==> current <= current' <= end && q.Contents() == old(q.Contents()) + [Stream(s, current, end, mark)[0]]
                   && Stream(s, current, end, mark) == [Stream(s, current, end, mark)[0]] + Stream(s, current', end, mark')
                   && current' == current + Stream(s, current, end, mark)[0].len && mark' == Carried(mark, Stream(s, current, end, mark)[0])
    ensures !ok ==> current' == current && mark' == mark && q.Contents() == old(q.Contents())
  {
    hide Stream, Split, Queue.Contents;
    current', mark' := current, mark;
    if q.IsFull() { return false, current, mark; }
    StreamNext(s, current, end, mark);
    var len, word, next, predeli, last := SpilitContent(s, current, end, SINGLEWORDLEN);
    if len == 0 { return false, current, mark; }
    current' := current + len;
    if !IsBlank(next) { mark' := last; }
    ok := q.EnQueue(Token(len, word, next, mark, last));
  }

  /** The last at most n of them. */
  function LastOf(ts: seq<Token>, n: nat): seq<Token> {
    if |ts| <= n then ts else ts[|ts| - n..]
  }

  /** What the features of one word are computed from: the word itself with the mark carried on to it, the
    * words in the past queue and those in the next one, in the order of the text. */
  datatype Visit = Visit(before: seq<Token>, word: Token, after: seq<Token>)

  /** The words around the k-th one: the last twelve before it and the next eleven behind it, or as
    * many as there are. */
  function Around(ts: seq<Token>, k: nat): Visit
    requires k < |ts|
  {
    Visit(LastOf(ts[..k], CNSQSIZE - 1), ts[k], ts[k + 1..if |ts| <= k + CNSQSIZE - 1 then |ts| else k + CNSQSIZE - 1])
  }

  /** The windows by indices. */
  lemma WindowsAre(ts: seq<Token>, k: nat)
    requires k < |ts|
    ensures var v := Around(ts, k);
      && v.word == ts[k]
      && |v.before| == (if k < 12 then k else 12) && (forall i :: 0 <= i < |v.before| ==> v.before[i] == ts[k - |v.before| + i])
      && |v.after| == (if |ts| - k - 1 < 11 then |ts| - k - 1 else 11) && (forall i :: 0 <= i < |v.after| ==> v.after[i] == ts[k + 1 + i])
  {
  }

  /** The past queue read from its rear, as the feature loops do. */
  method ReadPast(q: Queue<Token>) returns (ts: seq<Token>)
    requires q.Valid()
    ensures ts == q.Contents()
  {
    hide Queue.Contents;
    ts := [];
    var n := q.Size();
    for i := 1 to n + 1
      invariant ts == q.Contents()[n - (i - 1)..]
    {
      var t := q.PastNElem(i);
      ts := [t.value] + ts;
    }
  }

  /** The next queue read from its front. */
  method ReadComing(q: Queue<Token>) returns (ts: seq<Token>)
    requires q.Valid()
    ensures ts == q.Contents()
  {
    hide Queue.Contents;
    ts := [];
    for i := 1 to q.Size() + 1
      invariant ts == q.Contents()[..i - 1]
    {
      var t := q.NextNElem(i);
      ts := ts + [t.value];
    }
  }

  datatype Segment = Segment(start: nat, end: nat)

  /** The part of the content that the k-th word takes. */
  function SegmentOf(ts: seq<Token>, b: nat, k: nat): Segment
    requires k < |ts|
  {
    Segment(b + Total(ts[..k]), b + Total(ts[..k + 1]))
  }

  lemma TotalMore(ts: seq<Token>, t: Token)
    ensures Total(ts + [t]) == Total(ts) + t.len
  {
    TotalConcat(ts, [t]);
    assert Total([t]) == t.len;
  }

  lemma Moved(a: seq<Token>, b: seq<Token>, x: Token, c: seq<Token>)
    requires b == [x] + c
    ensures a + b == (a + [x]) + c
  {
  }

  lemma QueueSize(q: Queue<Token>)
    requires q.Valid()
    ensures |q.Contents()| <= CNSQSIZE - 1
  {
  }

  /** Filling the queue before the first word is taken out. */
  method Fill(q: Queue<Token>, s: string, start: nat, end: nat) returns (current: nat, mark: Option<char>)
    requires q.Valid() && q.Contents() == [] && start <= end
    modifies q, q.data
    ensures q.Valid() && start <= current <= end
    ensures q.Contents() + Stream(s, current, end, mark) == Stream(s, start, end, BLANK) && current == start + Total(q.Contents())
    ensures |q.Contents()| == CNSQSIZE - 1 || Stream(s, current, end, mark) == []
  {
    hide *;
    ghost var whole := Stream(s, start, end, BLANK);
    current, mark := start, BLANK;
    NoTotal();
    assert [] + whole == whole;
    var ok := true;
    while ok
      invariant q.Valid() && start <= current <= end
      invariant q.Contents() + Stream(s, current, end, mark) == whole && current == start + Total(q.Contents())
      invariant !ok ==> |q.Contents()| == CNSQSIZE - 1 || Stream(s, current, end, mark) == []
      decreases |Stream(s, current, end, mark)|, ok
    {
      ghost var was, rest := q.Contents(), Stream(s, current, end, mark);
      ok, current, mark := PredftEnQueue(q, s, current, mark, end);
      QueueSize(q);
      if ok {
        Moved(was, rest, rest[0], Stream(s, current, end, mark));
        TotalMore(was, rest[0]);
      }
    }
  }

  // ---------- one word ----------

  /** Where the words of the stream are: done, waiting in the queue, or not cut yet. */
  ghost predicate Progress(done: seq<Token>, waiting: seq<Token>, rest: seq<Token>, past: seq<Token>, whole: seq<Token>) {
    && done + (waiting + rest) == whole
    && (|waiting| == CNSQSIZE - 1 || rest == [])
    && past == LastOf(done, CNSQSIZE - 1)
  }

  lemma ProgressNext(done: seq<Token>, waiting: seq<Token>, rest: seq<Token>, past: seq<Token>, whole: seq<Token>,
                     x: Token, later: seq<Token>, rest': seq<Token>)
    requires Progress(done, waiting, rest, past, whole) && waiting != [] && x == waiting[0] && |waiting| <= CNSQSIZE - 1
    requires if rest == [] then later == waiting[1..] && rest' == [] else later == waiting[1..] + [rest[0]] && rest' == rest[1..]
    ensures Progress(done + [x], later, rest', (if |past| < CNSQSIZE - 1 then past else past[1..]) + [x], whole)
  {
    assert waiting + rest == [x] + (later + rest');
    assert done + ([x] + (later + rest')) == (done + [x]) + (later + rest');
  }

  lemma ProgressStart(waiting: seq<Token>, rest: seq<Token>, whole: seq<Token>)
    requires waiting + rest == whole && (|waiting| == CNSQSIZE - 1 || rest == [])
    ensures Progress([], waiting, rest, [], whole)
  {
    assert [] + (waiting + rest) == whole;
  }

  lemma ProgressEnd(done: seq<Token>, rest: seq<Token>, past: seq<Token>, whole: seq<Token>)
    requires Progress(done, [], rest, past, whole)
    ensures done == whole && rest == []
  {
    assert done + ([] + rest) == done;
  }

  lemma ProgressAt(done: seq<Token>, waiting: seq<Token>, rest: seq<Token>, past: seq<Token>, whole: seq<Token>)
    requires Progress(done, waiting, rest, past, whole) && waiting != [] && |waiting| <= CNSQSIZE - 1
    ensures |done| < |whole| && whole[|done|] == waiting[0] && whole[..|done|] == done && whole[..|done| + 1] == done + [waiting[0]]
    ensures Around(whole, |done|) == Visit(past, waiting[0], waiting[1..])
  {
    hide LastOf;
    var d := |done|;
    assert whole[..d] == done && whole[d..] == waiting + rest;
    assert whole[d] == whole[d..][0];
    var end := if |whole| <= d + CNSQSIZE - 1 then |whole| else d + CNSQSIZE - 1;
    assert end == d + |waiting|;
    assert whole[d + 1..end] == whole[d..][1..end - d] == waiting[1..];
  }

  /** What the loop has recorded for the first n words. */
  ghost predicate Recorded(n: nat, whole: seq<Token>, b: nat, segments: seq<Segment>, visits: seq<Visit>) {
    && n == |segments| == |visits| <= |whole|
    && (forall k :: 0 <= k < n ==> segments[k] == SegmentOf(whole, b, k))
    && (forall k :: 0 <= k < n ==> visits[k] == Around(whole, k))
  }

  lemma RecordedMore(n: nat, whole: seq<Token>, b: nat, segments: seq<Segment>, visits: seq<Visit>, g: Segment, v: Visit)
    requires Recorded(n, whole, b, segments, visits) && n < |whole|
    requires g == SegmentOf(whole, b, n) && v == Around(whole, n)
    ensures Recorded(n + 1, whole, b, segments + [g], visits + [v])
  {
    hide SegmentOf, Around;
  }

  lemma SegmentHere(whole: seq<Token>, b: nat, done: seq<Token>, x: Token)
    requires |done| < |whole| && whole[..|done|] == done && whole[..|done| + 1] == done + [x]
    ensures SegmentOf(whole, b, |done|) == Segment(b + Total(done), b + Total(done) + x.len)
  {
    TotalMore(done, x);
  }

  lemma Positive(s: string, b: nat, end: nat, mark: Option<char>, k: nat)
    requires b <= end && k < |Stream(s, b, end, mark)|
    ensures Stream(s, b, end, mark)[k].len > 0
  {
  }

  /** One round of the loop: a word is taken out of the queue, both queues are read around it, it goes
    * into the past queue, and one more word is cut off the area. */
  method ProcessWord(past: Queue<Token>, coming: Queue<Token>, s: string, start: nat, current: nat, mark: Option<char>, end: nat,
                     last: nat, ghost done: seq<Token>)
    returns (current': nat, mark': Option<char>, g: Segment, v: Visit)
    requires past.Valid() && coming.Valid() && past != coming && past.data != coming.data && start <= current <= end
    requires coming.Contents() != [] && last == start + Total(done)
    requires Progress(done, coming.Contents(), Stream(s, current, end, mark), past.Contents(), Stream(s, start, end, BLANK))
    modifies past, past.data, coming, coming.data
    ensures past.Valid() && coming.Valid() && current <= current' <= end
    ensures |done| < |Stream(s, start, end, BLANK)| && v.word == Stream(s, start, end, BLANK)[|done|]
    ensures Progress(done + [v.word], coming.Contents(), Stream(s, current', end, mark'), past.Contents(), Stream(s, start, end, BLANK))
    ensures g == SegmentOf(Stream(s, start, end, BLANK), start, |done|) && g.end == start + Total(done + [v.word])
    ensures v == Around(Stream(s, start, end, BLANK), |done|)
  {
    hide *;
    ghost var whole, waiting, rest, window := Stream(s, start, end, BLANK), coming.Contents(), Stream(s, current, end, mark), past.Contents();
    QueueSize(coming);
    ProgressAt(done, waiting, rest, window, whole);
    var taken := coming.DeQueue();
    var word := taken.value;
    assert waiting[0] == word && waiting[1..] == coming.Contents();
    SegmentHere(whole, start, done, word);
    TotalMore(done, word);
    Positive(s, start, end, BLANK, |done|);
    var before := ReadPast(past);
    var after := ReadComing(coming);
    g := Segment(last, if word.len == 0 then end else last + word.len);
    v := Visit(before, word, after);
    past.EnQueueWithDrop(word);
    var ok;
    ok, current', mark' := PredftEnQueue(coming, s, current, mark, end);
    ghost var rest' := Stream(s, current', end, mark');
    assert ok ==> rest[1..] == rest';
    ProgressNext(done, waiting, rest, window, whole, word, coming.Contents(), rest');
  }

  /** The loop over all words: each word of the stream is taken out once, in order, with the words
    * around it at hand; the words taken out are the whole stream. */
  method ProcessWords(s: string, start: nat, end: nat) returns (segments: seq<Segment>, visits: seq<Visit>, last: nat)
    requires start <= end
    ensures var whole := Stream(s, start, end, BLANK); Recorded(|whole|, whole, start, segments, visits) && last == start + Total(whole)
  {
    hide *;
    ghost var whole := Stream(s, start, end, BLANK);
    var past := new Queue<Token>();
    var coming := new Queue<Token>();
    var current, mark := Fill(coming, s, start, end);
    segments, visits, last := [], [], start;
    ghost var done: seq<Token> := [];
    RecordedNone(whole, start);
    NoTotal();
    ProgressStart(coming.Contents(), Stream(s, current, end, mark), whole);
    while !coming.IsEmpty()
      invariant past.Valid() && coming.Valid() && past != coming && past.data != coming.data && start <= current <= end
      invariant fresh(past) && fresh(coming) && fresh(past.data) && fresh(coming.data)
      invariant Progress(done, coming.Contents(), Stream(s, current, end, mark), past.Contents(), whole)
      invariant |done| <= |whole| && Recorded(|done|, whole, start, segments, visits) && last == start + Total(done)
      decreases |whole| - |done|
    {
      var g, v;
      current, mark, g, v := ProcessWord(past, coming, s, start, current, mark, end, last, done);
      RecordedMore(|done|, whole, start, segments, visits, g, v);
      segments, visits, last := segments + [g], visits + [v], g.end;
      done := done + [v.word];
    }
    ProgressEnd(done, Stream(s, current, end, mark), past.Contents(), whole);
  }

  lemma RecordedNone(whole: seq<Token>, b: nat)
    ensures Recorded(0, whole, b, [], [])
  {
  }

  // ---------- chunks ----------

  /** A stretch of the content handed on with one label. */
  datatype Chunk = Chunk(text: string, id: nat)

  function Joined(chunks: seq<Chunk>): string {
    if chunks == [] then [] else Joined(chunks[..|chunks| - 1]) + chunks[|chunks| - 1].text
  }

  /** The segments follow each other without gap or overlap, from position a to position z. */
  predicate Tiles(segments: seq<Segment>, a: nat, z: nat) {
    && StartOf(segments, a, |segments|) == z
    && forall k :: 0 <= k < |segments| ==> segments[k].start == StartOf(segments, a, k) <= segments[k].end
  }

  /** Where the k-th segment starts; behind the last one, where that ends. */
  function StartOf(segments: seq<Segment>, a: nat, k: nat): nat
    requires k <= |segments|
  {
    if k == 0 then a else segments[k - 1].end
  }

  lemma {:induction false} StartsGrow(segments: seq<Segment>, a: nat, z: nat, j: nat, k: nat)
    requires Tiles(segments, a, z) && j <= k <= |segments|
    ensures StartOf(segments, a, j) <= StartOf(segments, a, k)
    decreases k - j
  {
    if j < k {
      StartsGrow(segments, a, z, j, k - 1);
      assert segments[k - 1].start == StartOf(segments, a, k - 1);
    }
  }

  /** A chunk holds the text of the words from i up to j, and all of them have its label. */
  ghost predicate ChunkIs(chunk: Chunk, i: nat, j: nat, labels: seq<nat>, s: string, segments: seq<Segment>, a: nat)
    requires |segments| < |labels|
  {
    && i <= j <= |segments| && StartOf(segments, a, i) <= StartOf(segments, a, j) <= |s|
    && chunk.text == s[StartOf(segments, a, i)..StartOf(segments, a, j)]
    && forall k :: i <= k < j ==> labels[k] == chunk.id
  }

  /** The word at k has another label than the chunk. */
  predicate Changes(labels: seq<nat>, k: nat, chunk: Chunk) {
    k < |labels| && labels[k] != chunk.id
  }

  /** The chunks cut the words, from the first to the m-th, where the label changes: every chunk but the
    * last holds at least one word, and the word behind it has another label. */
  ghost predicate Grouped(chunks: seq<Chunk>, cuts: seq<nat>, m: nat, labels: seq<nat>, s: string, segments: seq<Segment>, a: nat) {
    && |cuts| == |chunks| + 1 && cuts[0] == 0 && cuts[|chunks|] == m <= |segments| < |labels|
    && (forall c :: 0 <= c < |chunks| ==> ChunkIs(chunks[c], cuts[c], cuts[c + 1], labels, s, segments, a))
    && (forall c :: 0 <= c < |chunks| - 1 ==> cuts[c] < cuts[c + 1] && Changes(labels, cuts[c + 1], chunks[c]))
  }

  /** The m-th word, which is the next one, has another label than the last chunk, which is not empty. */
  ghost predicate Awaits(chunks: seq<Chunk>, cuts: seq<nat>, labels: seq<nat>, m: nat) {
    chunks != [] ==> |cuts| == |chunks| + 1 && cuts[|chunks| - 1] < m && Changes(labels, m, chunks[|chunks| - 1])
  }

  lemma AwaitsNext(chunks: seq<Chunk>, cuts: seq<nat>, labels: seq<nat>, c: Chunk, j: nat)
    requires |cuts| == |chunks| + 1 && cuts[|chunks|] < j && Changes(labels, j, c)
    ensures Awaits(chunks + [c], cuts + [j], labels, j)
  {
  }

  lemma GroupedMore(chunks: seq<Chunk>, cuts: seq<nat>, m: nat, labels: seq<nat>, s: string, segments: seq<Segment>, a: nat, c: Chunk, j: nat)
    requires Grouped(chunks, cuts, m, labels, s, segments, a) && ChunkIs(c, m, j, labels, s, segments, a)
    requires Awaits(chunks, cuts, labels, m)
    ensures Grouped(chunks + [c], cuts + [j], j, labels, s, segments, a)
    ensures m < j && labels[j] != c.id ==> Awaits(chunks + [c], cuts + [j], labels, j)
  {
    hide ChunkIs;
    ChunkEnds(c, m, j, labels, s, segments, a);
    var more, marks := chunks + [c], cuts + [j];
    assert |more| == |chunks| + 1 && marks[0] == cuts[0] && marks[|more|] == j;
    forall d | 0 <= d < |more| ensures ChunkIs(more[d], marks[d], marks[d + 1], labels, s, segments, a) {
      if d < |chunks| {
        assert more[d] == chunks[d] && marks[d] == cuts[d] && marks[d + 1] == cuts[d + 1];
      } else {
        assert more[d] == c && marks[d] == m && marks[d + 1] == j;
      }
    }
    forall d | 0 <= d < |more| - 1 ensures marks[d] < marks[d + 1] && Changes(labels, marks[d + 1], more[d]) {
      assert more[d] == chunks[d] && marks[d] == cuts[d] && marks[d + 1] == cuts[d + 1];
      assert d == |chunks| - 1 || (cuts[d] < cuts[d + 1] && Changes(labels, cuts[d + 1], chunks[d]));
    }
    assert Grouped(more, marks, j, labels, s, segments, a);
    if m < j && labels[j] != c.id { AwaitsNext(chunks, cuts, labels, c, j); }
  }

  lemma ChunkEnds(c: Chunk, i: nat, j: nat, labels: seq<nat>, s: string, segments: seq<Segment>, a: nat)
    requires |segments| < |labels| && ChunkIs(c, i, j, labels, s, segments, a)
    ensures i <= j <= |segments|
  {
  }

  lemma JoinedMore(chunks: seq<Chunk>, c: Chunk)
    ensures Joined(chunks + [c]) == Joined(chunks) + c.text
  {
    assert (chunks + [c])[..|chunks|] == chunks;
  }

  lemma SliceMore(s: string, i: nat, j: nat, k: nat)
    requires i <= j <= k <= |s|
    ensures s[i..j] + s[j..k] == s[i..k]
  {
  }

  lemma SegmentAt(segments: seq<Segment>, a: nat, z: nat, k: nat)
    requires Tiles(segments, a, z) && k < |segments|
    ensures segments[k].start == StartOf(segments, a, k) && segments[k].end == StartOf(segments, a, k + 1) <= z
    ensures StartOf(segments, a, 0) == a <= segments[k].start <= segments[k].end && StartOf(segments, a, |segments|) == z
  {
    hide StartOf;
    StartsGrow(segments, a, z, k + 1, |segments|);
    StartsGrow(segments, a, z, 0, k);
    assert StartOf(segments, a, 0) == a by { StartZero(segments, a); }
    NextStart(segments, a, k);
  }

  lemma StartZero(segments: seq<Segment>, a: nat)
    ensures StartOf(segments, a, 0) == a
  {
  }

  lemma NextStart(segments: seq<Segment>, a: nat, k: nat)
    requires k < |segments|
    ensures StartOf(segments, a, k + 1) == segments[k].end
  {
  }

  /** The labelled words are put together; the label behind the last word is whatever the tagger
    * returns for an index past its end. */
  method Assemble(s: string, segments: seq<Segment>, labels: seq<nat>, a: nat, ghost z: nat)
    returns (chunks: seq<Chunk>, ghost cuts: seq<nat>)
    requires Tiles(segments, a, z) && z <= |s| && |labels| == |segments| + 1
    ensures a <= z && Joined(chunks) == s[a..z]
    ensures Grouped(chunks, cuts, |segments|, labels, s, segments, a) && EndsRight(chunks, labels, |segments|)
  {
    hide *;
    var strelem: string := [];
    var nowid, lastid := 0, labels[0];
    ghost var from: nat := 0;
    chunks, cuts := [], [0];
    StartZero(segments, a);
    TilesEnd(segments, a, z);
    GroupedNone(labels, s, segments, a);
    assert s[a..a] == [] && [] + strelem == [];
    var i := 1;
    while i <= |segments|
      invariant 1 <= i <= |segments| + 1 && from <= i - 1
      invariant a <= StartOf(segments, a, from) <= StartOf(segments, a, i - 1) <= z
      invariant strelem == s[StartOf(segments, a, from)..StartOf(segments, a, i - 1)]
      invariant Joined(chunks) == s[a..StartOf(segments, a, from)]
      invariant Grouped(chunks, cuts, from, labels, s, segments, a) && Awaits(chunks, cuts, labels, from)
      invariant lastid == labels[i - 1] && forall k :: from <= k < i ==> labels[k] == lastid
      invariant if i > 1 then nowid == lastid else nowid == 0
    {
      nowid := labels[i];
      var segment := segments[i - 1];
      SegmentAt(segments, a, z, i - 1);
      strelem := strelem + s[segment.start..segment.end];
      SliceMore(s, StartOf(segments, a, from), segment.start, segment.end);
      if nowid != lastid {
        var chunk := Chunk(strelem, lastid);
        ChunkIf(chunk, from, i, labels, s, segments, a);
        GroupedMore(chunks, cuts, from, labels, s, segments, a, chunk, i);
        JoinedMore(chunks, chunk);
        SliceMore(s, a, StartOf(segments, a, from), segment.end);
        chunks, cuts, from := chunks + [chunk], cuts + [i], i;
        strelem := [];
      }
      lastid := nowid;
      i := i + 1;
    }
    var chunk := Chunk(strelem, nowid);
    ChunkIf(chunk, from, |segments|, labels, s, segments, a);
    GroupedMore(chunks, cuts, from, labels, s, segments, a, chunk, |segments|);
    JoinedMore(chunks, chunk);
    SliceMore(s, a, StartOf(segments, a, from), z);
    EndIf(chunks, chunk, labels, |segments|);
    chunks, cuts := chunks + [chunk], cuts + [|segments|];
  }

  /** The last chunk carries the label found behind the last word; 0 when there is no word. */
  predicate EndsRight(chunks: seq<Chunk>, labels: seq<nat>, n: nat) {
    chunks != [] && n < |labels| && chunks[|chunks| - 1].id == if n == 0 then 0 else labels[n]
  }

  lemma EndIf(chunks: seq<Chunk>, c: Chunk, labels: seq<nat>, n: nat)
    requires n < |labels| && c.id == if n == 0 then 0 else labels[n]
    ensures EndsRight(chunks + [c], labels, n)
  {
  }

  lemma {:induction false} CutsGrow(chunks: seq<Chunk>, cuts: seq<nat>, m: nat, labels: seq<nat>, s: string, segments: seq<Segment>, a: nat, c: nat, d: nat)
    requires Grouped(chunks, cuts, m, labels, s, segments, a) && c <= d <= |chunks|
    ensures cuts[c] <= cuts[d]
    decreases d - c
  {
    if c < d {
      CutsGrow(chunks, cuts, m, labels, s, segments, a, c, d - 1);
      assert ChunkIs(chunks[d - 1], cuts[d - 1], cuts[d], labels, s, segments, a);
    }
  }

  /** Inner cuts stand exactly where the label of a word, or the one behind the last word, differs from
    * the label before it. */
  lemma CutsAreChanges(chunks: seq<Chunk>, cuts: seq<nat>, labels: seq<nat>, s: string, segments: seq<Segment>, a: nat, k: nat)
    requires Grouped(chunks, cuts, |segments|, labels, s, segments, a) && EndsRight(chunks, labels, |segments|)
    requires 0 < k <= |segments|
    ensures (exists c :: 0 < c < |chunks| && cuts[c] == k) <==> labels[k - 1] != labels[k]
  {
    var n := |chunks|;
    assert cuts[0] < k <= cuts[n];
    var c := CutBefore(cuts, n, k);
    assert ChunkIs(chunks[c], cuts[c], cuts[c + 1], labels, s, segments, a);
    assert labels[k - 1] == chunks[c].id;
    if k < cuts[c + 1] {
      assert labels[k] == chunks[c].id;
      if d :| 0 < d < n && cuts[d] == k {
        if d <= c { CutsGrow(chunks, cuts, |segments|, labels, s, segments, a, d, c); }
        else { CutsGrow(chunks, cuts, |segments|, labels, s, segments, a, c + 1, d); }
        assert false;
      }
    } else if c < n - 1 {
      assert cuts[c + 1] == k && Changes(labels, cuts[c + 1], chunks[c]);
    } else {
      assert labels[k] == chunks[c].id;
      if d :| 0 < d < n && cuts[d] == k {
        CutsGrow(chunks, cuts, |segments|, labels, s, segments, a, d, c);
        assert false;
      }
    }
  }

  /** The chunk that holds the word in front of position k. */
  lemma {:induction false} CutBefore(cuts: seq<nat>, n: nat, k: nat) returns (c: nat)
    requires n < |cuts| && cuts[0] < k <= cuts[n]
    ensures c < n && cuts[c] < k <= cuts[c + 1]
  {
    if cuts[n - 1] < k { c := n - 1; } else { c := CutBefore(cuts, n - 1, k); }
  }

  lemma ChunkIf(chunk: Chunk, i: nat, j: nat, labels: seq<nat>, s: string, segments: seq<Segment>, a: nat)
    requires |segments| < |labels| && i <= j <= |segments| && StartOf(segments, a, i) <= StartOf(segments, a, j) <= |s|
    requires chunk.text == s[StartOf(segments, a, i)..StartOf(segments, a, j)]
    requires forall k :: i <= k < j ==> labels[k] == chunk.id
    ensures ChunkIs(chunk, i, j, labels, s, segments, a)
  {
  }

  lemma TilesEnd(segments: seq<Segment>, a: nat, z: nat)
    requires Tiles(segments, a, z)
    ensures StartOf(segments, a, |segments|) == z && a <= z
  {
    StartsGrow(segments, a, z, 0, |segments|);
  }

  lemma GroupedNone(labels: seq<nat>, s: string, segments: seq<Segment>, a: nat)
    requires |segments| < |labels|
    ensures Grouped([], [0], 0, labels, s, segments, a) && Awaits([], [0], labels, 0) && Joined([]) == []
  {
  }

  /** The segments recorded for a stream tile the part of the content it takes. */
  lemma StreamTiles(whole: seq<Token>, b: nat, segments: seq<Segment>, visits: seq<Visit>)
    requires Recorded(|whole|, whole, b, segments, visits)
    ensures Tiles(segments, b, b + Total(whole))
  {
    hide Total, Around;
    assert whole[..|whole|] == whole && whole[..0] == [];
    NoTotal();
    forall k | 0 <= k < |segments| ensures segments[k].start == StartOf(segments, b, k) <= segments[k].end {
      TotalGrows(whole, k);
      assert segments[k] == SegmentOf(whole, b, k);
      assert k > 0 ==> segments[k - 1] == SegmentOf(whole, b, k - 1);
    }
  }

  lemma TotalGrows(whole: seq<Token>, k: nat)
    requires k < |whole|
    ensures Total(whole[..k]) <= Total(whole[..k + 1])
  {
    hide Total;
    assert whole[..k + 1] == whole[..k] + [whole[k]];
    TotalMore(whole[..k], whole[k]);
  }

  /** The labels a tagger gives, and what it returns for the index behind the last word. */
  function Labels(tagger: (seq<Visit>, nat) -> nat, visits: seq<Visit>): (labels: seq<nat>)
    ensures |labels| == |visits| + 1
  {
    seq(|visits| + 1, k requires 0 <= k => tagger(visits, k))
  }

  /** CitationInfoPredict for any tagger, which sees the words and their windows: whatever labels it
    * gives, the chunks handed on join up to exactly the part of the content that the words take, each
    * holds the words of one label, and they are cut exactly where the label changes. */
  method CitationInfoPredict(s: string, start: nat, end: nat, tagger: (seq<Visit>, nat) -> nat)
    returns (chunks: seq<Chunk>, ghost segments: seq<Segment>, ghost visits: seq<Visit>, ghost cuts: seq<nat>)
    requires start <= end <= |s|
    ensures var whole := Stream(s, start, end, BLANK); Recorded(|whole|, whole, start, segments, visits)
    ensures Grouped(chunks, cuts, |segments|, Labels(tagger, visits), s, segments, start)
    ensures EndsRight(chunks, Labels(tagger, visits), |segments|)
    ensures var z := start + Total(Stream(s, start, end, BLANK)); z <= end && Joined(chunks) == s[start..z]
    ensures AllFit(s, start, end) && !NoWord(s, start, end) ==> Joined(chunks) == s[start..end]
  {
    hide *;
    ghost var whole := Stream(s, start, end, BLANK);
    var parts, seen, last := ProcessWords(s, start, end);
    StreamTiles(whole, start, parts, seen);
    StreamCovers(s, start, end, BLANK);
    RecordedLengths(|whole|, whole, start, parts, seen);
    chunks, cuts := Assemble(s, parts, Labels(tagger, seen), start, last);
    segments, visits := parts, seen;
  }

  lemma RecordedLengths(n: nat, whole: seq<Token>, b: nat, segments: seq<Segment>, visits: seq<Visit>)
    requires Recorded(n, whole, b, segments, visits)
    ensures |segments| == |visits| == n
  {
  }
}
