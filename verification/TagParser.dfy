/** Stripping recognised tags from a text while recording, for each character kept, the tags open
  * around it. Reading past the end of the text gives the terminator. */
module TagParser {
  import opened Options
  import opened TagWords
  import opened Texts

  const MAX_TOKEN_LENGTH: nat := 20
  /** The table of tag names: a name and an active mark for each number. */
  datatype Names = Names(name: seq<string>, active: seq<bool>)

  predicate ValidNames(r: Names) {
    |r.name| == |r.active| == TOKEN_MAX_LEN
  }

  // ---------- names ----------

  /** token2Id: the first number with this name, active or not. */
  function NumberFrom(r: Names, tag: string, i: nat): (id: nat)
    requires ValidNames(r)
    ensures id < TOKEN_MAX_LEN
    decreases TOKEN_MAX_LEN - i
  {
    if i >= TOKEN_MAX_LEN then 0 else if r.name[i] == tag then i else NumberFrom(r, tag, i + 1)
  }

  /** getTokenId: the number of an active name, or 0. */
  function TagNumber(r: Names, tag: string): (id: nat)
    requires ValidNames(r)
    ensures id < TOKEN_MAX_LEN
  {
    if exists i :: 0 <= i < TOKEN_MAX_LEN && r.active[i] && r.name[i] == tag then NumberFrom(r, tag, 0) else 0
  }

  /** A number other than 0 is the first one with exactly that name; 0 is for names that are not active,
    * and for the name that has number 0. */
  lemma NumberIs(r: Names, tag: string)
    requires ValidNames(r)
    ensures var id := TagNumber(r, tag);
      && (id > 0 ==> r.name[id] == tag && forall k :: 0 <= k < id ==> r.name[k] != tag)
      && (id == 0 <==> (forall k :: 0 <= k < |r.name| && r.active[k] ==> r.name[k] != tag) || r.name[0] == tag)
  {
    hide NumberFrom;
    NumberFromIs(r, tag, 0);
  }

  lemma {:induction false} NumberFromIs(r: Names, tag: string, i: nat)
    requires ValidNames(r)
    ensures var id := NumberFrom(r, tag, i);
      if exists k :: i <= k < |r.name| && r.name[k] == tag
      then i <= id && r.name[id] == tag && forall k :: i <= k < id ==> r.name[k] != tag
      else id == 0
    decreases |r.name| - i
  {
    if i < |r.name| { NumberFromIs(r, tag, i + 1); }
  }

  method TokenToId(r: Names, tag: string) returns (id: nat)
    requires ValidNames(r)
    ensures id == NumberFrom(r, tag, 0)
  {
    var i := 0;
    while i < TOKEN_MAX_LEN
      invariant 0 <= i <= TOKEN_MAX_LEN && NumberFrom(r, tag, i) == NumberFrom(r, tag, 0)
    {
      if r.name[i] == tag { return i; }
      i := i + 1;
    }
    id := 0;
  }

  method GetTokenId(r: Names, tag: string) returns (id: nat)
    requires ValidNames(r)
    ensures id == TagNumber(r, tag)
    ensures id > 0 ==> id < 20 && r.name[id] == tag && forall k :: 0 <= k < id ==> r.name[k] != tag
    ensures id == 0 <==> (forall k :: 0 <= k < 20 && r.active[k] ==> r.name[k] != tag) || r.name[0] == tag
  {
    NumberIs(r, tag);
    var i := 0;
    while i < TOKEN_MAX_LEN
      invariant 0 <= i <= TOKEN_MAX_LEN && forall k :: 0 <= k < i ==> !(r.active[k] && r.name[k] == tag)
    {
      if r.active[i] && r.name[i] == tag {
        id := TokenToId(r, r.name[i]);
        return;
      }
      i := i + 1;
    }
    id := 0;
  }

  // ---------- pieces ----------

  /** A plain character, or a tag with the position after it. */
  datatype Piece = Plain | Open(id: nat, next: nat) | Close(id: nat, next: nat)

  /** The first recognised name among those that start at from and end before a '>', with its length. */
  function NameAt(s: string, r: Names, from: nat, j: nat): (n: Option<(nat, nat)>)
    requires ValidNames(r)
    ensures n.Some? ==> Tag(n.value.0) && from + n.value.1 < |s|
    decreases MAX_TOKEN_LENGTH - j
  {
    if j >= MAX_TOKEN_LENGTH then None
    else if At(s, from + j) == '>' && TagNumber(r, s[from..from + j]) != 0 then Some((TagNumber(r, s[from..from + j]), j))
    else NameAt(s, r, from, j + 1)
  }

  function PieceAt(s: string, r: Names, i: nat): (p: Piece)
    requires ValidNames(r) && i < |s|
    ensures !p.Plain? ==> Tag(p.id) && i + 1 < p.next <= |s|
  {
    if s[i] != '<' then Plain
    else if At(s, i + 1) == '/' then
      match NameAt(s, r, i + 2, 0)
      case Some((id, j)) => Close(id, i + 2 + j + 1)
      case None => Plain
    else
      match NameAt(s, r, i + 1, 0)
      case Some((id, j)) => Open(id, i + 1 + j + 1)
      case None => Plain
  }

  function Next(s: string, r: Names, i: nat): (n: nat)
    requires ValidNames(r) && i < |s|
    ensures i < n <= |s|
  {
    var p := PieceAt(s, r, i);
    if p.Plain? then i + 1 else p.next
  }

  // ---------- the parse ----------

  /** A kept character: its position and the tags open around it, innermost first. */
  datatype Entry = Entry(at: nat, stack: seq<nat>)

  /** The entries from position i on, with the given tags open; None at a close tag that is not that
    * of the innermost open one. */
  function Scan(s: string, r: Names, i: nat, stack: seq<nat>): (e: Option<seq<Entry>>)
    requires ValidNames(r)
    decreases |s| - i
  {
    if i >= |s| then Some([])
    else match PieceAt(s, r, i)
      case Plain =>
        (match Scan(s, r, i + 1, stack)
         case Some(es) => Some([Entry(i, stack)] + es)
         case None => None)
      case Open(id, next) => Scan(s, r, next, [id] + stack)
      case Close(id, next) => if stack != [] && stack[0] == id then Scan(s, r, next, stack[1..]) else None
  }

  /** Every stack on the way has a word. */
  ghost predicate Roomy(s: string, r: Names, i: nat, stack: seq<nat>)
    requires ValidNames(r)
    decreases |s| - i
  {
    Encode(stack) < WORD_LIMIT &&
    (i < |s| ==>
      match PieceAt(s, r, i)
      case Plain => Roomy(s, r, i + 1, stack)
      case Open(id, next) => Roomy(s, r, next, [id] + stack)
      case Close(id, next) => stack != [] && stack[0] == id ==> Roomy(s, r, next, stack[1..]))
  }

  /** The greatest number of tags open at once. */
  function Depth(s: string, r: Names, i: nat, open: nat): (d: nat)
    requires ValidNames(r)
    ensures open <= d
    decreases |s| - i
  {
    if i >= |s| then open
    else match PieceAt(s, r, i)
      case Plain => Depth(s, r, i + 1, open)
      case Open(id, next) => Depth(s, r, next, open + 1)
      case Close(id, next) =>
        var inner := if open > 0 then Depth(s, r, next, open - 1) else 0;
        if open < inner then inner else open
  }

  /** Nesting of at most seven tags leaves room. */
  lemma {:induction false} SevenDeepIsRoomy(s: string, r: Names, i: nat, stack: seq<nat>)
    requires ValidNames(r) && AllTags(stack) && Depth(s, r, i, |stack|) <= 7
    ensures Roomy(s, r, i, stack)
    decreases |s| - i
  {
    hide PieceAt, Encode;
    SevenFit(stack);
    if i < |s| {
      match PieceAt(s, r, i)
      case Plain => SevenDeepIsRoomy(s, r, i + 1, stack);
      case Open(id, next) => SevenDeepIsRoomy(s, r, next, [id] + stack);
      case Close(id, next) => if stack != [] { SevenDeepIsRoomy(s, r, next, stack[1..]); }
    }
  }

  // ---------- what is recognised ----------

  /** A recognised name of length k from position from on, closed by '>'. */
  predicate Recognised(s: string, r: Names, from: nat, k: nat)
    requires ValidNames(r)
  {
    k < MAX_TOKEN_LENGTH && from + k < |s| && s[from + k] == '>' && TagNumber(r, s[from..from + k]) != 0
  }

  lemma {:induction false} NameAtIs(s: string, r: Names, from: nat, j: nat)
    requires ValidNames(r)
    ensures NameAt(s, r, from, j).None? ==> forall k: nat :: j <= k ==> !Recognised(s, r, from, k)
    ensures NameAt(s, r, from, j).Some? ==>
              var (id, k) := NameAt(s, r, from, j).value;
              j <= k && Recognised(s, r, from, k) && TagNumber(r, s[from..from + k]) == id
              && forall m: nat :: j <= m < k ==> !Recognised(s, r, from, m)
    decreases MAX_TOKEN_LENGTH - j
  {
    hide TagNumber;
    if j < MAX_TOKEN_LENGTH {
      NameAtIs(s, r, from, j + 1);
    }
  }

  // ---------- the tags of a text, and which one is open ----------

  /** A recognised tag and the part of the text it takes. */
  datatype Mark = Mark(open: bool, id: nat, at: nat, end: nat)

  function Marks(s: string, r: Names, i: nat): (ms: seq<Mark>)
    requires ValidNames(r)
    decreases |s| - i
  {
    if i >= |s| then []
    else match PieceAt(s, r, i)
      case Plain => Marks(s, r, i + 1)
      case Open(id, next) => [Mark(true, id, i, next)] + Marks(s, r, next)
      case Close(id, next) => [Mark(false, id, i, next)] + Marks(s, r, next)
  }

  /** Among the first t tags, the innermost one still open: going backwards, a close tag is skipped
    * together with everything since its own open tag. */
  function Innermost(ms: seq<Mark>, t: nat): (u: Option<nat>)
    requires t <= |ms|
    ensures u.Some? ==> u.value < t && ms[u.value].open
  {
    if t == 0 then None
    else if ms[t - 1].open then Some(t - 1)
    else match Innermost(ms, t - 1)
      case None => None
      case Some(u) => Innermost(ms, u)
  }

  /** The numbers of the tags open after the first t, innermost first. */
  function OpenTags(ms: seq<Mark>, t: nat): seq<nat>
    requires t <= |ms|
  {
    match Innermost(ms, t)
    case None => []
    case Some(u) => [ms[u].id] + OpenTags(ms, u)
  }

  /** A close tag has the number of the innermost open one. */
  predicate Matches(ms: seq<Mark>, t: nat)
    requires t < |ms|
  {
    !ms[t].open ==> Innermost(ms, t).Some? && ms[Innermost(ms, t).value].id == ms[t].id
  }

  lemma OpenTagsNext(ms: seq<Mark>, t: nat)
    requires t < |ms|
    ensures ms[t].open ==> OpenTags(ms, t + 1) == [ms[t].id] + OpenTags(ms, t)
    ensures !ms[t].open && Matches(ms, t) ==> OpenTags(ms, t) == [ms[t].id] + OpenTags(ms, t + 1)
    ensures !ms[t].open && !Matches(ms, t) ==> OpenTags(ms, t) == [] || OpenTags(ms, t)[0] != ms[t].id
  {
  }

  /** What the scan records, told from the tags alone: ids are open at position p. */
  ghost predicate OpenAt(ms: seq<Mark>, p: nat, ids: seq<nat>) {
    exists t: nat :: t <= |ms| && Split(ms, p, t) && ids == OpenTags(ms, t)
  }

  /** The first t tags lie before position p and the others after it. */
  ghost predicate Split(ms: seq<Mark>, p: nat, t: nat)
    requires t <= |ms|
  {
    (forall k :: 0 <= k < t ==> ms[k].end <= p) && (forall k :: t <= k < |ms| ==> p < ms[k].at)
  }

  /** How many tags end at or before position p, from the first one on. */
  function Passed(ms: seq<Mark>, p: nat): (t: nat)
    ensures t <= |ms| && (forall k :: 0 <= k < t ==> ms[k].end <= p) && (t < |ms| ==> ms[t].end > p)
  {
    if ms == [] || ms[0].end > p then 0 else 1 + Passed(ms[1..], p)
  }

  /** The numbers of the tags open at position p, innermost first. */
  function TagsAt(s: string, r: Names, p: nat): seq<nat>
    requires ValidNames(r)
  {
    var ms := Marks(s, r, 0);
    OpenTags(ms, Passed(ms, p))
  }

  /** At a position outside all tags, these are the only ones. */
  lemma OpenAtIs(s: string, r: Names, p: nat, ids: seq<nat>)
    requires ValidNames(r) && OpenAt(Marks(s, r, 0), p, ids)
    ensures ids == TagsAt(s, r, p)
  {
    hide Marks, OpenTags;
    var ms := Marks(s, r, 0);
    MarksFrom(s, r, 0);
    var t: nat :| t <= |ms| && Split(ms, p, t) && ids == OpenTags(ms, t);
    var u := Passed(ms, p);
    assert t < |ms| ==> p < ms[t].at < ms[t].end;
    assert u == t;
  }

  lemma {:induction false} MarksFrom(s: string, r: Names, i: nat)
    requires ValidNames(r)
    ensures forall k :: 0 <= k < |Marks(s, r, i)| ==> var m := Marks(s, r, i)[k]; i <= m.at < m.end <= |s| && Tag(m.id)
    ensures forall k, l :: 0 <= k < l < |Marks(s, r, i)| ==> Marks(s, r, i)[k].end <= Marks(s, r, i)[l].at
    decreases |s| - i
  {
    hide PieceAt;
    if i < |s| { MarksFrom(s, r, Next(s, r, i)); }
  }

  lemma PieceParts(s: string, r: Names, i: nat)
    requires ValidNames(r) && i < |s|
    ensures var p := PieceAt(s, r, i); !p.Plain? ==>
              var from := if p.Open? then i + 1 else i + 2;
              && s[i] == '<' && (p.Close? ==> s[i + 1] == '/')
              && from < p.next <= |s| && Recognised(s, r, from, p.next - 1 - from) && p.id == TagNumber(r, s[from..p.next - 1])
  {
    hide TagNumber, NameAt;
    NameAtIs(s, r, i + 1, 0);
    NameAtIs(s, r, i + 2, 0);
  }

  lemma Bracketed(s: string, i: nat, from: nat, next: nat)
    requires i < from < next <= |s|
    ensures s[i..next] == s[i..from] + s[from..next - 1] + [s[next - 1]]
  {
  }

  lemma PieceSpelled(s: string, r: Names, i: nat)
    requires ValidNames(r) && i < |s|
    ensures var p := PieceAt(s, r, i); !p.Plain? ==>
              && s[i..p.next] == (if p.Open? then "<" else "</") + r.name[p.id] + ">"
              && |r.name[p.id]| < 20 && (forall k :: 0 <= k < p.id ==> r.name[k] != r.name[p.id])
              && exists k :: 0 <= k < |r.name| && r.active[k] && r.name[k] == r.name[p.id]
  {
    hide TagNumber, PieceAt;
    PieceParts(s, r, i);
    var p := PieceAt(s, r, i);
    if !p.Plain? {
      var from := if p.Open? then i + 1 else i + 2;
      NumberIs(r, s[from..p.next - 1]);
      Bracketed(s, i, from, p.next);
      assert s[i..from] == if p.Open? then "<" else "</";
    }
  }

  /** Every recognised tag spells the first name with its number, which has fewer than 20 characters and
    * is active. */
  lemma {:induction false} MarksAreSpelled(s: string, r: Names, i: nat, k: nat)
    requires ValidNames(r) && k < |Marks(s, r, i)|
    ensures var m := Marks(s, r, i)[k];
      && m.at < m.end <= |s| && m.id < |r.name|
      && s[m.at..m.end] == (if m.open then "<" else "</") + r.name[m.id] + ">"
      && |r.name[m.id]| < 20 && (forall j :: 0 <= j < m.id ==> r.name[j] != r.name[m.id])
      && exists j :: 0 <= j < |r.name| && r.active[j] && r.name[j] == r.name[m.id]
    decreases |s| - i
  {
    hide PieceAt;
    PieceSpelled(s, r, i);
    var p := PieceAt(s, r, i);
    if p.Plain? {
      MarksAreSpelled(s, r, i + 1, k);
    } else if k > 0 {
      MarksAreSpelled(s, r, p.next, k - 1);
    }
  }

  /** A tag is spelled at position p. */
  predicate SpelledAt(s: string, p: nat, open: bool, name: string) {
    var t := (if open then "<" else "</") + name + ">";
    p + |t| <= |s| && s[p..p + |t|] == t
  }

  lemma SpelledIs(s: string, p: nat, open: bool, name: string)
    requires SpelledAt(s, p, open, name)
    ensures var from := if open then p + 1 else p + 2;
      && from + |name| < |s| && s[p] == '<' && s[from..from + |name|] == name && s[from + |name|] == '>'
      && (!open ==> s[p + 1] == '/')
      && (open ==> s[p + 1] == if name == [] then '>' else name[0])
      && (forall k :: 0 <= k < |name| ==> s[from + k] == name[k])
  {
    var t := (if open then "<" else "</") + name + ">";
    var from := if open then p + 1 else p + 2;
    assert forall k :: 0 <= k < |t| ==> s[p + k] == s[p..p + |t|][k] == t[k];
    forall k | 0 <= k < |name| ensures s[from + k] == name[k] {
      assert s[p + (from - p + k)] == t[from - p + k];
    }
    assert s[p + 0] == t[0] && s[p + 1] == t[1] && s[p + (|t| - 1)] == t[|t| - 1] == '>';
  }

  /** A spelled tag with an active name of fewer than 20 characters is taken for what it is; the name must
    * not be that of number 0, hold a closing bracket, or make an open tag look like a close tag. */
  lemma SpelledIsTaken(s: string, r: Names, p: nat, open: bool, name: string)
    requires ValidNames(r) && SpelledAt(s, p, open, name)
    requires |name| < 20 && '>' !in name && r.name[0] != name && (open && name != [] ==> name[0] != '/')
    requires exists k :: 0 <= k < |r.name| && r.active[k] && r.name[k] == name
    ensures var q := PieceAt(s, r, p);
      (if open then q.Open? else q.Close?) && q.next == p + |name| + (if open then 2 else 3) && r.name[q.id] == name
  {
    hide TagNumber, NameAt, SpelledAt;
    SpelledIs(s, p, open, name);
    var from := if open then p + 1 else p + 2;
    NumberIs(r, name);
    assert Recognised(s, r, from, |name|);
    NameAtIs(s, r, from, 0);
    var (id, j) := NameAt(s, r, from, 0).value;
    assert j == |name|;
  }

  lemma {:induction false} MarkReached(s: string, r: Names, i: nat, p: nat)
    requires ValidNames(r) && i <= p < |s| && !PieceAt(s, r, p).Plain?
    requires forall m :: m in Marks(s, r, i) ==> !(m.at < p < m.end)
    ensures var q := PieceAt(s, r, p); Mark(q.Open?, q.id, p, q.next) in Marks(s, r, i)
    decreases |s| - i
  {
    hide PieceAt;
    match PieceAt(s, r, i)
    case Plain => MarkReached(s, r, i + 1, p);
    case Open(id, next) =>
      var m := Mark(true, id, i, next);
      assert Marks(s, r, i) == [m] + Marks(s, r, next);
      if i < p {
        assert m in Marks(s, r, i);
        MarkReached(s, r, next, p);
      }
    case Close(id, next) =>
      var m := Mark(false, id, i, next);
      assert Marks(s, r, i) == [m] + Marks(s, r, next);
      if i < p {
        assert m in Marks(s, r, i);
        MarkReached(s, r, next, p);
      }
  }

  /** No tag is passed over: a spelled tag whose name is active, has fewer than 20 characters, no closing
    * bracket and not the number 0 is recognised, unless it starts inside another tag. */
  lemma SpelledIsMarked(s: string, r: Names, p: nat, open: bool, name: string) returns (m: Mark)
    requires ValidNames(r) && SpelledAt(s, p, open, name)
    requires |name| < 20 && '>' !in name && r.name[0] != name && (open && name != [] ==> name[0] != '/')
    requires exists k :: 0 <= k < |r.name| && r.active[k] && r.name[k] == name
    requires forall m :: m in Marks(s, r, 0) ==> !(m.at < p < m.end)
    ensures m in Marks(s, r, 0) && m.open == open && m.at == p && m.end == p + |name| + (if open then 2 else 3)
    ensures m.id < |r.name| && r.name[m.id] == name
  {
    hide PieceAt, Marks, SpelledAt;
    SpelledIsTaken(s, r, p, open, name);
    SpelledIs(s, p, open, name);
    var q := PieceAt(s, r, p);
    MarkReached(s, r, 0, p);
    m := Mark(q.Open?, q.id, p, q.next);
  }

  /** The scan succeeds exactly when every close tag matches. */
  lemma {:induction false} ScanMatches(s: string, r: Names, i: nat, ms: seq<Mark>, t: nat)
    requires ValidNames(r) && t <= |ms| && ms[t..] == Marks(s, r, i)
    ensures Scan(s, r, i, OpenTags(ms, t)).Some? <==> forall u :: t <= u < |ms| ==> Matches(ms, u)
    decreases |s| - i
  {
    hide PieceAt, OpenTags, Matches;
    if i < |s| {
      match PieceAt(s, r, i)
      case Plain => ScanMatches(s, r, i + 1, ms, t);
      case Open(id, next) =>
        MarkNext(ms, t, Marks(s, r, next), Mark(true, id, i, next));
        OpenTagsNext(ms, t);
        ScanMatches(s, r, next, ms, t + 1);
        assert Matches(ms, t) by { OpenMatches(ms, t); }
      case Close(id, next) =>
        MarkNext(ms, t, Marks(s, r, next), Mark(false, id, i, next));
        OpenTagsNext(ms, t);
        if Matches(ms, t) {
          assert OpenTags(ms, t)[1..] == OpenTags(ms, t + 1);
          ScanMatches(s, r, next, ms, t + 1);
        }
    }
  }

  lemma OpenMatches(ms: seq<Mark>, t: nat)
    requires t < |ms| && ms[t].open
    ensures Matches(ms, t)
  {
  }

  lemma MarkNext(ms: seq<Mark>, t: nat, rest: seq<Mark>, m: Mark)
    requires t <= |ms| && ms[t..] == [m] + rest
    ensures t < |ms| && ms[t] == m && ms[t + 1..] == rest
  {
    assert ms[t..][0] == m;
    assert ms[t + 1..] == ms[t..][1..];
  }

  /** Position p is kept. */
  predicate Stored(es: seq<Entry>, p: nat) {
    exists a :: 0 <= a < |es| && es[a].at == p
  }

  /** Position p lies in one of the tags from the t-th on. */
  predicate InTag(ms: seq<Mark>, t: nat, p: nat) {
    exists k :: t <= k < |ms| && ms[k].at <= p < ms[k].end
  }

  /** Entries come in order, each with exactly the tags open at its position. */
  lemma {:induction false} EntriesAreRight(s: string, r: Names, i: nat, ms: seq<Mark>, t: nat)
    requires ValidNames(r) && t <= |ms| && ms[t..] == Marks(s, r, i)
    requires (forall k :: 0 <= k < t ==> ms[k].end <= i) && Scan(s, r, i, OpenTags(ms, t)).Some?
    ensures var es := Scan(s, r, i, OpenTags(ms, t)).value;
      && (forall a :: 0 <= a < |es| ==> i <= es[a].at < |s| && OpenAt(ms, es[a].at, es[a].stack))
      && (forall a, b :: 0 <= a < b < |es| ==> es[a].at < es[b].at)
    decreases |s| - i
  {
    hide PieceAt, OpenTags, OpenAt;
    if i < |s| {
      match PieceAt(s, r, i)
      case Plain =>
        EntriesAreRight(s, r, i + 1, ms, t);
        OpenHere(s, r, i, ms, t);
      case Open(id, next) =>
        MarkNext(ms, t, Marks(s, r, next), Mark(true, id, i, next));
        OpenTagsNext(ms, t);
        EntriesAreRight(s, r, next, ms, t + 1);
      case Close(id, next) =>
        MarkNext(ms, t, Marks(s, r, next), Mark(false, id, i, next));
        OpenTagsNext(ms, t);
        OpenTagsTail(ms, t);
        EntriesAreRight(s, r, next, ms, t + 1);
    }
  }

  lemma OpenTagsTail(ms: seq<Mark>, t: nat)
    requires t < |ms| && !ms[t].open && OpenTags(ms, t) != [] && OpenTags(ms, t)[0] == ms[t].id
    ensures OpenTags(ms, t)[1..] == OpenTags(ms, t + 1)
  {
    hide OpenTags;
    OpenTagsNext(ms, t);
  }

  lemma OpenHere(s: string, r: Names, i: nat, ms: seq<Mark>, t: nat)
    requires ValidNames(r) && i < |s| && PieceAt(s, r, i).Plain? && t <= |ms| && ms[t..] == Marks(s, r, i)
    requires forall k :: 0 <= k < t ==> ms[k].end <= i
    ensures OpenAt(ms, i, OpenTags(ms, t))
  {
    hide PieceAt, OpenTags;
    MarksFrom(s, r, i + 1);
    forall k | t <= k < |ms| ensures i < ms[k].at {
      assert ms[k] == ms[t..][k - t];
    }
    assert Split(ms, i, t);
  }

  /** Every position is either kept or inside a recognised tag. */
  lemma {:induction false} KeptOrTag(s: string, r: Names, i: nat, stack: seq<nat>, p: nat)
    requires ValidNames(r) && i <= p < |s| && Scan(s, r, i, stack).Some?
    ensures Stored(Scan(s, r, i, stack).value, p) <==> !InTag(Marks(s, r, i), 0, p)
    decreases |s| - i
  {
    hide PieceAt;
    MarksFrom(s, r, Next(s, r, i));
    match PieceAt(s, r, i)
    case Plain =>
      ScanFrom(s, r, i + 1, stack);
      var es := Scan(s, r, i + 1, stack).value;
      if p > i {
        KeptOrTag(s, r, i + 1, stack, p);
        StoredLater(Entry(i, stack), es, p);
      } else {
        assert ([Entry(i, stack)] + es)[0].at == p;
      }
    case Open(id, next) => TagFirst(s, r, i, next, [id] + stack, Mark(true, id, i, next), p);
    case Close(id, next) => TagFirst(s, r, i, next, stack[1..], Mark(false, id, i, next), p);
  }

  lemma StoredLater(e: Entry, es: seq<Entry>, p: nat)
    requires e.at != p
    ensures Stored([e] + es, p) <==> Stored(es, p)
  {
    if Stored(es, p) {
      var a :| 0 <= a < |es| && es[a].at == p;
      assert ([e] + es)[a + 1].at == p;
    }
  }

  lemma {:induction false} TagFirst(s: string, r: Names, i: nat, next: nat, stack: seq<nat>, m: Mark, p: nat)
    requires ValidNames(r) && i < next <= |s| && i <= p < |s| && m.at == i && m.end == next && Scan(s, r, next, stack).Some?
    ensures Stored(Scan(s, r, next, stack).value, p) <==> !InTag([m] + Marks(s, r, next), 0, p)
    decreases |s| - i, 0
  {
    hide Scan, Marks;
    var ms := Marks(s, r, next);
    ScanFrom(s, r, next, stack);
    if p < next {
      assert ([m] + ms)[0] == m;
    } else {
      KeptOrTag(s, r, next, stack, p);
      if InTag(ms, 0, p) {
        var k :| 0 <= k < |ms| && ms[k].at <= p < ms[k].end;
        assert ([m] + ms)[k + 1] == ms[k];
      }
    }
  }

  lemma {:induction false} ScanFrom(s: string, r: Names, i: nat, stack: seq<nat>)
    requires ValidNames(r) && Scan(s, r, i, stack).Some?
    ensures forall a :: 0 <= a < |Scan(s, r, i, stack).value| ==> i <= Scan(s, r, i, stack).value[a].at < |s|
    ensures |Scan(s, r, i, stack).value| <= if i < |s| then |s| - i else 0
    decreases |s| - i
  {
    hide PieceAt;
    if i < |s| {
      match PieceAt(s, r, i)
      case Plain => ScanFrom(s, r, i + 1, stack);
      case Open(id, next) => ScanFrom(s, r, next, [id] + stack);
      case Close(id, next) => ScanFrom(s, r, next, stack[1..]);
    }
  }

  lemma {:induction false} StacksAreTags(s: string, r: Names, i: nat, stack: seq<nat>)
    requires ValidNames(r) && Scan(s, r, i, stack).Some? && Roomy(s, r, i, stack) && AllTags(stack)
    ensures forall e :: e in Scan(s, r, i, stack).value ==> AllTags(e.stack) && Encode(e.stack) < WORD_LIMIT
    decreases |s| - i
  {
    hide PieceAt, Encode;
    if i < |s| {
      match PieceAt(s, r, i)
      case Plain => StacksAreTags(s, r, i + 1, stack);
      case Open(id, next) => StacksAreTags(s, r, next, [id] + stack);
      case Close(id, next) => StacksAreTags(s, r, next, stack[1..]);
    }
  }

  /** The parse succeeds exactly when every recognised close tag matches the innermost open one. */
  lemma ScanSucceeds(s: string, r: Names)
    requires ValidNames(r)
    ensures var ms := Marks(s, r, 0); Scan(s, r, 0, []).Some? <==> forall u :: 0 <= u < |ms| ==> Matches(ms, u)
  {
    hide Scan, Matches, Marks;
    var ms := Marks(s, r, 0);
    assert ms[0..] == ms;
    ScanMatches(s, r, 0, ms, 0);
  }
}
