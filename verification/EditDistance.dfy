/** Minimum edit distance for an arbitrary match relation between characters: the matrix recurrence,
  * the alignments it minimises over, and the metric laws. */
module EditDistance {

  type Fits = (char, char) -> bool

  function Min(x: int, y: int): int { if x < y then x else y }

  function Max(x: int, y: int): int { if x < y then y else x }

  /** The matrix cell for prefixes of lengths i and j. On a match only the diagonal is taken. */
  function Cell(fits: Fits, t: string, s: string, i: nat, j: nat): (d: nat)
    requires i <= |t| && j <= |s|
    decreases i + j
  {
    if i == 0 then j
    else if j == 0 then i
    else if fits(t[i - 1], s[j - 1]) then Cell(fits, t, s, i - 1, j - 1)
    else Min(Min(Cell(fits, t, s, i, j - 1) + 1, Cell(fits, t, s, i - 1, j) + 1), Cell(fits, t, s, i - 1, j - 1) + 1)
  }

  function Distance(fits: Fits, t: string, s: string): (d: nat) {
    Cell(fits, t, s, |t|, |s|)
  }

  // ---------- the recurrence is as good as trying all three moves ----------

  lemma {:induction false} Neighbours(fits: Fits, t: string, s: string, i: nat, j: nat)
    requires i <= |t| && j <= |s|
    ensures i > 0 ==> -1 <= Cell(fits, t, s, i, j) - Cell(fits, t, s, i - 1, j) <= 1
    ensures j > 0 ==> -1 <= Cell(fits, t, s, i, j) - Cell(fits, t, s, i, j - 1) <= 1
    decreases i + j
  {
    if i > 0 { Neighbours(fits, t, s, i - 1, j); }
    if j > 0 { Neighbours(fits, t, s, i, j - 1); }
  }

  /** Substituting, deleting or inserting never beats the recurrence, matches included. */
  lemma AllMoves(fits: Fits, t: string, s: string, i: nat, j: nat)
    requires 0 < i <= |t| && 0 < j <= |s|
    ensures Cell(fits, t, s, i, j) <= Cell(fits, t, s, i - 1, j) + 1
    ensures Cell(fits, t, s, i, j) <= Cell(fits, t, s, i, j - 1) + 1
    ensures Cell(fits, t, s, i, j) <= Cell(fits, t, s, i - 1, j - 1) + if fits(t[i - 1], s[j - 1]) then 0 else 1
  {
    Neighbours(fits, t, s, i, j);
  }

  /** How a cell came about. */
  lemma LastMove(fits: Fits, t: string, s: string, i: nat, j: nat)
    requires 0 < i <= |t| && 0 < j <= |s|
    ensures var d := Cell(fits, t, s, i, j);
            if fits(t[i - 1], s[j - 1]) then d == Cell(fits, t, s, i - 1, j - 1)
            else d in {Cell(fits, t, s, i - 1, j) + 1, Cell(fits, t, s, i, j - 1) + 1, Cell(fits, t, s, i - 1, j - 1) + 1}
  {
  }

  // ---------- alignments ----------

  /** A step of an alignment consumes a character of both strings, of t only, or of s only. */
  datatype Step = Both | OnlyT | OnlyS

  /** The alignment consumes exactly the first i characters of t and j of s. */
  predicate Aligns(a: seq<Step>, i: nat, j: nat) {
    if a == [] then i == 0 && j == 0
    else
      var rest := a[..|a| - 1];
      match a[|a| - 1]
      case Both => i > 0 && j > 0 && Aligns(rest, i - 1, j - 1)
      case OnlyT => i > 0 && Aligns(rest, i - 1, j)
      case OnlyS => j > 0 && Aligns(rest, i, j - 1)
  }

  /** Its cost: one for every step but those joining two characters that fit. */
  function Cost(fits: Fits, t: string, s: string, a: seq<Step>, i: nat, j: nat): nat
    requires i <= |t| && j <= |s| && Aligns(a, i, j)
  {
    if a == [] then 0
    else
      var rest := a[..|a| - 1];
      match a[|a| - 1]
      case Both => Cost(fits, t, s, rest, i - 1, j - 1) + if fits(t[i - 1], s[j - 1]) then 0 else 1
      case OnlyT => Cost(fits, t, s, rest, i - 1, j) + 1
      case OnlyS => Cost(fits, t, s, rest, i, j - 1) + 1
  }

  /** No alignment costs less than the matrix cell. */
  lemma {:induction false} NoCheaper(fits: Fits, t: string, s: string, a: seq<Step>, i: nat, j: nat)
    requires i <= |t| && j <= |s| && Aligns(a, i, j)
    ensures Cost(fits, t, s, a, i, j) >= Cell(fits, t, s, i, j)
    decreases |a|
  {
    if a != [] {
      var rest := a[..|a| - 1];
      match a[|a| - 1]
      case Both =>
        NoCheaper(fits, t, s, rest, i - 1, j - 1);
        AllMoves(fits, t, s, i, j);
      case OnlyT =>
        NoCheaper(fits, t, s, rest, i - 1, j);
        Neighbours(fits, t, s, i, j);
      case OnlyS =>
        NoCheaper(fits, t, s, rest, i, j - 1);
        Neighbours(fits, t, s, i, j);
    }
  }

  /** Some alignment costs exactly as much. */
  lemma {:induction false} Attained(fits: Fits, t: string, s: string, i: nat, j: nat) returns (a: seq<Step>)
    requires i <= |t| && j <= |s|
    ensures Aligns(a, i, j) && Cost(fits, t, s, a, i, j) == Cell(fits, t, s, i, j)
    decreases i + j
  {
    if i == 0 && j == 0 {
      a := [];
    } else if j == 0 || (i > 0 && !fits(t[i - 1], s[j - 1]) && Cell(fits, t, s, i, j) == Cell(fits, t, s, i - 1, j) + 1) {
      var rest := Attained(fits, t, s, i - 1, j);
      a := rest + [OnlyT];
      assert a[..|a| - 1] == rest;
    } else if i == 0 || (!fits(t[i - 1], s[j - 1]) && Cell(fits, t, s, i, j) == Cell(fits, t, s, i, j - 1) + 1) {
      var rest := Attained(fits, t, s, i, j - 1);
      a := rest + [OnlyS];
      assert a[..|a| - 1] == rest;
    } else {
      var rest := Attained(fits, t, s, i - 1, j - 1);
      a := rest + [Both];
      assert a[..|a| - 1] == rest;
    }
  }

  // ---------- metric laws ----------

  /** Between the difference of the lengths and the larger length. */
  lemma {:induction false} Bounds(fits: Fits, t: string, s: string, i: nat, j: nat)
    requires i <= |t| && j <= |s|
    ensures i - j <= Cell(fits, t, s, i, j) && j - i <= Cell(fits, t, s, i, j)
    ensures Cell(fits, t, s, i, j) <= Max(i, j)
    decreases i + j
  {
    if i > 0 && j > 0 {
      Bounds(fits, t, s, i - 1, j - 1);
      Bounds(fits, t, s, i - 1, j);
      Bounds(fits, t, s, i, j - 1);
    }
  }

  /** Zero exactly for prefixes of one length that fit character by character. */
  lemma {:induction false} ZeroIffFits(fits: Fits, t: string, s: string, i: nat, j: nat)
    requires i <= |t| && j <= |s|
    ensures Cell(fits, t, s, i, j) == 0 <==> i == j && forall k :: 0 <= k < i ==> fits(t[k], s[k])
    decreases i + j
  {
    Bounds(fits, t, s, i, j);
    if i > 0 && j > 0 {
      ZeroIffFits(fits, t, s, i - 1, j - 1);
    }
  }

  lemma {:induction false} Symmetric(fits: Fits, t: string, s: string, i: nat, j: nat)
    requires i <= |t| && j <= |s| && forall a, b :: fits(a, b) == fits(b, a)
    ensures Cell(fits, t, s, i, j) == Cell(fits, s, t, j, i)
    decreases i + j
  {
    if i > 0 && j > 0 {
      Symmetric(fits, t, s, i - 1, j - 1);
      Symmetric(fits, t, s, i - 1, j);
      Symmetric(fits, t, s, i, j - 1);
    }
  }

  /** The triangle inequality, for a transitive match relation. */
  lemma {:induction false} Triangle(fits: Fits, t: string, s: string, u: string, i: nat, j: nat, k: nat)
    requires i <= |t| && j <= |s| && k <= |u|
    requires forall a, b, c :: fits(a, b) && fits(b, c) ==> fits(a, c)
    ensures Cell(fits, t, u, i, k) <= Cell(fits, t, s, i, j) + Cell(fits, s, u, j, k)
    decreases i + j + k, 1
  {
    if j == 0 {
      Bounds(fits, t, u, i, k);
    } else if i == 0 {
      Bounds(fits, s, u, j, k);
    } else if k == 0 {
      Bounds(fits, t, s, i, j);
    } else {
      var x, y := Cell(fits, t, s, i, j), Cell(fits, s, u, j, k);
      AllMoves(fits, t, u, i, k);
      if !fits(t[i - 1], s[j - 1]) && x == Cell(fits, t, s, i - 1, j) + 1 {
        Triangle(fits, t, s, u, i - 1, j, k);
      } else if !fits(s[j - 1], u[k - 1]) && y == Cell(fits, s, u, j, k - 1) + 1 {
        Triangle(fits, t, s, u, i, j, k - 1);
      } else {
        TriangleDiagonal(fits, t, s, u, i, j, k);
      }
    }
  }

  /** The moves of Triangle that use up the last character of s on both sides. */
  lemma {:induction false} TriangleDiagonal(fits: Fits, t: string, s: string, u: string, i: nat, j: nat, k: nat)
    requires 0 < i <= |t| && 0 < j <= |s| && 0 < k <= |u|
    requires forall a, b, c :: fits(a, b) && fits(b, c) ==> fits(a, c)
    requires fits(t[i - 1], s[j - 1]) || Cell(fits, t, s, i, j) != Cell(fits, t, s, i - 1, j) + 1
    requires fits(s[j - 1], u[k - 1]) || Cell(fits, s, u, j, k) != Cell(fits, s, u, j, k - 1) + 1
    ensures Cell(fits, t, u, i, k) <= Cell(fits, t, s, i, j) + Cell(fits, s, u, j, k)
    decreases i + j + k, 0
  {
    hide Cell;
    LastMove(fits, t, s, i, j);
    LastMove(fits, s, u, j, k);
    AllMoves(fits, t, u, i, k);
    Triangle(fits, t, s, u, i - 1, j - 1, k - 1);
    Triangle(fits, t, s, u, i, j - 1, k - 1);
    Triangle(fits, t, s, u, i - 1, j - 1, k);
    Triangle(fits, t, s, u, i, j - 1, k);
  }

  // ---------- edit scripts ----------

  /** A single-character edit of a string, at position p. */
  datatype Edit = Insert(p: nat, c: char) | Delete(p: nat) | Substitute(p: nat, c: char)

  predicate Legal(e: Edit, s: string) {
    if e.Insert? then e.p <= |s| else e.p < |s|
  }

  function Apply(e: Edit, s: string): string
    requires Legal(e, s)
  {
    match e
    case Insert(p, c) => s[..p] + [c] + s[p..]
    case Delete(p) => s[..p] + s[p + 1..]
    case Substitute(p, c) => s[p := c]
  }

  /** Performing the edits one after the other turns s into t. */
  predicate Leads(edits: seq<Edit>, s: string, t: string) {
    if edits == [] then s == t else Legal(edits[0], s) && Leads(edits[1..], Apply(edits[0], s), t)
  }

  const EQUAL: Fits := (a, b) => a == b

  /** Common characters at the end add nothing. */
  lemma {:induction false} CommonEnd(t: string, s: string, i: nat, j: nat, k: nat)
    requires i + k <= |t| && j + k <= |s| && t[i..i + k] == s[j..j + k]
    ensures Cell(EQUAL, t, s, i + k, j + k) == Cell(EQUAL, t, s, i, j)
    decreases k
  {
    if k > 0 {
      assert t[i..i + k][k - 1] == s[j..j + k][k - 1];
      assert t[i..i + k - 1] == t[i..i + k][..k - 1] && s[j..j + k - 1] == s[j..j + k][..k - 1];
      CommonEnd(t, s, i, j, k - 1);
    }
  }

  lemma CommonStart(t: string, s: string, p: nat)
    requires p <= |t| && p <= |s| && t[..p] == s[..p]
    ensures Cell(EQUAL, t, s, p, p) == 0
  {
    forall k | 0 <= k < p ensures t[k] == s[k] { assert t[..p][k] == s[..p][k]; }
    ZeroIffFits(EQUAL, t, s, p, p);
  }

  /** One edit moves a string by a distance of at most one. */
  lemma OneEdit(e: Edit, s: string)
    requires Legal(e, s)
    ensures Distance(EQUAL, Apply(e, s), s) <= 1
  {
    hide Cell;
    var t, p := Apply(e, s), e.p;
    CommonStart(t, s, p);
    var i := if e.Delete? then p else p + 1;
    var j := if e.Insert? then p else p + 1;
    if e.Substitute? { AllMoves(EQUAL, t, s, i, j); } else { Neighbours(EQUAL, t, s, i, j); }
    assert t[i..i + (|s| - j)] == s[j..j + (|s| - j)];
    CommonEnd(t, s, i, j, |s| - j);
  }

  /** No script from s to t is shorter than the distance. */
  lemma {:induction false} NoShorterScript(edits: seq<Edit>, s: string, t: string)
    requires Leads(edits, s, t)
    ensures |edits| >= Distance(EQUAL, t, s)
  {
    hide Cell;
    if edits == [] {
      ZeroIffFits(EQUAL, t, s, |t|, |s|);
    } else {
      var u := Apply(edits[0], s);
      NoShorterScript(edits[1..], u, t);
      OneEdit(edits[0], s);
      Triangle(EQUAL, t, u, s, |t|, |u|, |s|);
    }
  }

  /** Some script from s to t is as short as the distance. Stated for prefixes in front of any
    * common end z. */
  lemma {:induction false} ShortestScript(t: string, s: string, i: nat, j: nat, z: string) returns (edits: seq<Edit>)
    requires i <= |t| && j <= |s|
    ensures |edits| == Cell(EQUAL, t, s, i, j) && Leads(edits, s[..j] + z, t[..i] + z)
    decreases i + j, 1
  {
    hide Cell, Apply, Leads, Legal;
    BorderCells(EQUAL, t, s, i, j);
    if i == 0 && j == 0 {
      edits := [];
      NoEdits(s[..j] + z, t[..i] + z);
    } else if i == 0 {
      edits := DropLast(t, s, i, j, z);
    } else if j == 0 {
      edits := AddLast(t, s, i, j, z);
    } else {
      LastMove(EQUAL, t, s, i, j);
      var d := Cell(EQUAL, t, s, i, j);
      if t[i - 1] == s[j - 1] {
        edits := ShortestScript(t, s, i - 1, j - 1, [t[i - 1]] + z);
        EndOfPrefix(t, i, z);
        EndOfPrefix(s, j, z);
      } else if d == Cell(EQUAL, t, s, i, j - 1) + 1 {
        edits := DropLast(t, s, i, j, z);
      } else if d == Cell(EQUAL, t, s, i - 1, j) + 1 {
        edits := AddLast(t, s, i, j, z);
      } else {
        edits := ChangeLast(t, s, i, j, z);
      }
    }
  }

  lemma BorderCells(fits: Fits, t: string, s: string, i: nat, j: nat)
    requires i <= |t| && j <= |s|
    ensures Cell(fits, t, s, 0, j) == j && Cell(fits, t, s, i, 0) == i
    ensures j > 0 ==> Cell(fits, t, s, 0, j - 1) == j - 1
    ensures i > 0 ==> Cell(fits, t, s, i - 1, 0) == i - 1
  {
  }

  lemma NoEdits(s: string, t: string)
    requires s == t
    ensures Leads([], s, t)
  {
  }

  lemma EndOfPrefix(t: string, i: nat, z: string)
    requires 0 < i <= |t|
    ensures t[..i - 1] + ([t[i - 1]] + z) == t[..i] + z
  {
  }

  lemma {:induction false} DropLast(t: string, s: string, i: nat, j: nat, z: string) returns (edits: seq<Edit>)
    requires i <= |t| && 0 < j <= |s|
    ensures |edits| == Cell(EQUAL, t, s, i, j - 1) + 1 && Leads(edits, s[..j] + z, t[..i] + z)
    decreases i + j, 0
  {
    hide Cell, Leads;
    var rest := ShortestScript(t, s, i, j - 1, z);
    assert Apply(Delete(j - 1), s[..j] + z) == s[..j - 1] + z;
    edits := Then(Delete(j - 1), s[..j] + z, s[..j - 1] + z, t[..i] + z, rest);
  }

  lemma {:induction false} AddLast(t: string, s: string, i: nat, j: nat, z: string) returns (edits: seq<Edit>)
    requires 0 < i <= |t| && j <= |s|
    ensures |edits| == Cell(EQUAL, t, s, i - 1, j) + 1 && Leads(edits, s[..j] + z, t[..i] + z)
    decreases i + j, 0
  {
    hide Cell, Leads;
    var z' := [t[i - 1]] + z;
    var rest := ShortestScript(t, s, i - 1, j, z');
    EndOfPrefix(t, i, z);
    assert Apply(Insert(j, t[i - 1]), s[..j] + z) == s[..j] + z';
    edits := Then(Insert(j, t[i - 1]), s[..j] + z, s[..j] + z', t[..i] + z, rest);
  }

  lemma {:induction false} ChangeLast(t: string, s: string, i: nat, j: nat, z: string) returns (edits: seq<Edit>)
    requires 0 < i <= |t| && 0 < j <= |s|
    ensures |edits| == Cell(EQUAL, t, s, i - 1, j - 1) + 1 && Leads(edits, s[..j] + z, t[..i] + z)
    decreases i + j, 0
  {
    hide Cell, Leads;
    var z' := [t[i - 1]] + z;
    var rest := ShortestScript(t, s, i - 1, j - 1, z');
    EndOfPrefix(t, i, z);
    assert Apply(Substitute(j - 1, t[i - 1]), s[..j] + z) == s[..j - 1] + z';
    edits := Then(Substitute(j - 1, t[i - 1]), s[..j] + z, s[..j - 1] + z', t[..i] + z, rest);
  }

  lemma Then(e: Edit, s: string, u: string, t: string, rest: seq<Edit>) returns (edits: seq<Edit>)
    requires Legal(e, s) && Apply(e, s) == u && Leads(rest, u, t)
    ensures edits == [e] + rest && Leads(edits, s, t)
  {
    edits := [e] + rest;
    assert edits[1..] == rest;
  }

  /** The distance is the length of a shortest edit script: some script has it and none is shorter. */
  lemma DistanceIsShortestScript(t: string, s: string)
    ensures exists edits :: Leads(edits, s, t) && |edits| == Distance(EQUAL, t, s)
    ensures forall edits :: Leads(edits, s, t) ==> |edits| >= Distance(EQUAL, t, s)
  {
    var edits := ShortestScript(t, s, |t|, |s|, "");
    assert s[..|s|] + "" == s && t[..|t|] + "" == t;
    assert Leads(edits, s, t);
    forall es | Leads(es, s, t) ensures |es| >= Distance(EQUAL, t, s) {
      NoShorterScript(es, s, t);
    }
  }

  // ---------- the three match relations of the source ----------

  function FoldChar(c: char): char {
    if 'A' <= c <= 'Z' then c + 32 as char else c
  }

  predicate IsSame(a: char, b: char) {
    FoldChar(a) == FoldChar(b)
  }

  const DELIMITERS: string := "!@#$%^&*()\"\':;,./<>?~` \n\t\r"

  /** Whether data character b fits pattern character a. */
  predicate FitPattern(a: char, b: char) {
    if a == 'a' || a == 'A' then IsLetter(b)
    else if a == 'n' || a == 'N' then IsDigitLike(b)
    else if a == 'd' || a == 'D' then IsLetter(b) || IsDigitLike(b)
    else if a == 'e' || a == 'E' then b in DELIMITERS
    else if a == 's' || a == 'S' then b == ' '
    else false
  }

  predicate IsLetter(b: char) {
    'a' <= b <= 'z' || 'A' <= b <= 'Z'
  }

  predicate IsDigitLike(b: char) {
    '0' <= b <= '9' || b == 'I' || b == 'i' || b == 'l' || b == 'L'
  }

  const SAME: Fits := (a, b) => IsSame(a, b)

  const PATTERN: Fits := (a, b) => FitPattern(a, b)

  /** Two characters match without regard to case exactly when they are equal or one is a capital ASCII
    * letter and the other its small form, 32 above it. */
  lemma SameIs(a: char, b: char)
    ensures SAME(a, b) <==> a == b || ('A' <= a <= 'Z' && b as int == a as int + 32) || ('A' <= b <= 'Z' && a as int == b as int + 32)
  {
  }

  /** Which characters fit a pattern letter; no other pattern letter fits anything. */
  lemma PatternIs(a: char, b: char)
    ensures PATTERN(a, b) <==>
              || (a in "aA" && ('a' <= b <= 'z' || 'A' <= b <= 'Z'))
              || (a in "nN" && ('0' <= b <= '9' || b in "IiLl"))
              || (a in "dD" && ('a' <= b <= 'z' || 'A' <= b <= 'Z' || '0' <= b <= '9'))
              || (a in "eE" && b in "!@#$%^&*()\"\':;,./<>?~` \n\t\r")
              || (a in "sS" && b == ' ')
  {
  }

  /** Strings at distance 0 have the same length and match position by position. */
  lemma ZeroDistance(t: string, s: string)
    ensures Distance(EQUAL, t, s) == 0 <==> |t| == |s| && forall k :: 0 <= k < |t| ==> t[k] == s[k]
    ensures Distance(SAME, t, s) == 0 <==>
              && |t| == |s|
              && forall k :: 0 <= k < |t| ==>
                   || t[k] == s[k]
                   || ('A' <= t[k] <= 'Z' && s[k] as int == t[k] as int + 32)
                   || ('A' <= s[k] <= 'Z' && t[k] as int == s[k] as int + 32)
  {
    hide Cell, IsSame;
    ZeroIffFits(EQUAL, t, s, |t|, |s|);
    ZeroIffFits(SAME, t, s, |t|, |s|);
    if |t| == |s| {
      forall k | 0 <= k < |t| ensures SAME(t[k], s[k]) <==>
          || t[k] == s[k]
          || ('A' <= t[k] <= 'Z' && s[k] as int == t[k] as int + 32)
          || ('A' <= s[k] <= 'Z' && t[k] as int == s[k] as int + 32) {
        SameIs(t[k], s[k]);
      }
    }
  }

  /** A pattern is at distance 0 exactly from the strings of its length whose characters fit its letters. */
  lemma ZeroPattern(t: string, s: string)
    ensures Distance(PATTERN, t, s) == 0 <==>
              && |t| == |s|
              && forall k :: 0 <= k < |t| ==>
                   || (t[k] in "aA" && ('a' <= s[k] <= 'z' || 'A' <= s[k] <= 'Z'))
                   || (t[k] in "nN" && ('0' <= s[k] <= '9' || s[k] in "IiLl"))
                   || (t[k] in "dD" && ('a' <= s[k] <= 'z' || 'A' <= s[k] <= 'Z' || '0' <= s[k] <= '9'))
                   || (t[k] in "eE" && s[k] in "!@#$%^&*()\"\':;,./<>?~` \n\t\r")
                   || (t[k] in "sS" && s[k] == ' ')
  {
    hide Cell, FitPattern;
    ZeroIffFits(PATTERN, t, s, |t|, |s|);
    if |t| == |s| {
      forall k | 0 <= k < |t| ensures PATTERN(t[k], s[k]) <==>
          || (t[k] in "aA" && ('a' <= s[k] <= 'z' || 'A' <= s[k] <= 'Z'))
          || (t[k] in "nN" && ('0' <= s[k] <= '9' || s[k] in "IiLl"))
          || (t[k] in "dD" && ('a' <= s[k] <= 'z' || 'A' <= s[k] <= 'Z' || '0' <= s[k] <= '9'))
          || (t[k] in "eE" && s[k] in "!@#$%^&*()\"\':;,./<>?~` \n\t\r")
          || (t[k] in "sS" && s[k] == ' ') {
        PatternIs(t[k], s[k]);
      }
    }
  }

  /** The pattern of a page range: two digits, a delimiter, two digits, as in "12:34". */
  lemma PageRange(s: string)
    ensures Distance(PATTERN, "nnenn", s) == 0 <==>
              && |s| == 5 && s[2] in "!@#$%^&*()\"\':;,./<>?~` \n\t\r"
              && forall k :: k in {0, 1, 3, 4} ==> '0' <= s[k] <= '9' || s[k] in "IiLl"
    ensures Distance(PATTERN, "nnenn", "12:34") == 0
  {
    hide Distance;
    ZeroPattern("nnenn", s);
    ZeroPattern("nnenn", "12:34");
    var p := "nnenn";
    assert p[0] == 'n' && p[1] == 'n' && p[2] == 'e' && p[3] == 'n' && p[4] == 'n';
  }

  /** The matrix of editDistance, editDistanceS and editDistanceP, which differ in the match test only. */
  method FillMatrix(fits: Fits, t: string, s: string) returns (d: nat)
    ensures d == Distance(fits, t, s)
  {
    var m, n := |s| + 1, |t| + 1;
    var matrix := new int[n, m];
    for i := 0 to n
      invariant forall k :: 0 <= k < i ==> matrix[k, 0] == k
    {
      matrix[i, 0] := i;
    }
    for i := 0 to m
      invariant forall k :: 0 <= k < n ==> matrix[k, 0] == k
      invariant forall k :: 0 <= k < i ==> matrix[0, k] == k
    {
      matrix[0, i] := i;
    }
    for i := 1 to n
      invariant forall k :: 0 <= k < i ==> RowFilled(fits, t, s, matrix, k)
      invariant forall k :: i <= k < n ==> matrix[k, 0] == k
    {
      FillRow(fits, t, s, matrix, i);
    }
    d := matrix[n - 1, m - 1];
  }

  ghost predicate RowFilled(fits: Fits, t: string, s: string, matrix: array2<int>, i: nat)
    requires matrix.Length1 == |s| + 1 && i < matrix.Length0 == |t| + 1
    reads matrix
  {
    forall l :: 0 <= l <= |s| ==> matrix[i, l] == Cell(fits, t, s, i, l)
  }

  lemma CellStep(fits: Fits, t: string, s: string, i: nat, j: nat)
    requires 0 < i <= |t| && 0 < j <= |s|
    ensures Cell(fits, t, s, i, j) ==
            if fits(t[i - 1], s[j - 1]) then Cell(fits, t, s, i - 1, j - 1)
            else Min(Min(Cell(fits, t, s, i, j - 1) + 1, Cell(fits, t, s, i - 1, j) + 1), Cell(fits, t, s, i - 1, j - 1) + 1)
  {
  }

  method FillRow(fits: Fits, t: string, s: string, matrix: array2<int>, i: nat)
    requires matrix.Length0 == |t| + 1 && matrix.Length1 == |s| + 1 && 1 <= i <= |t|
    requires RowFilled(fits, t, s, matrix, i - 1) && matrix[i, 0] == i
    modifies matrix
    ensures RowFilled(fits, t, s, matrix, i)
    ensures forall k, l :: 0 <= k <= |t| && k != i && 0 <= l <= |s| ==> matrix[k, l] == old(matrix[k, l])
    ensures forall k :: 0 <= k <= |t| && k != i && old(RowFilled(fits, t, s, matrix, k)) ==> RowFilled(fits, t, s, matrix, k)
  {
    hide Cell;
    BorderCells(fits, t, s, i, 0);
    for j := 1 to |s| + 1
      invariant forall l :: 0 <= l < j ==> matrix[i, l] == Cell(fits, t, s, i, l)
      invariant forall k, l :: 0 <= k <= |t| && k != i && 0 <= l <= |s| ==> matrix[k, l] == old(matrix[k, l])
    {
      CellStep(fits, t, s, i, j);
      if fits(t[i - 1], s[j - 1]) {
        matrix[i, j] := matrix[i - 1, j - 1];
      } else {
        matrix[i, j] := Min(Min(matrix[i, j - 1] + 1, matrix[i - 1, j] + 1), matrix[i - 1, j - 1] + 1);
      }
    }
  }

  method EditDistance(t: string, s: string) returns (d: nat)
    ensures d == Distance(EQUAL, t, s)
  {
    d := FillMatrix(EQUAL, t, s);
  }

  method EditDistanceS(t: string, s: string) returns (d: nat)
    ensures d == Distance(SAME, t, s)
  {
    d := FillMatrix(SAME, t, s);
  }

  method EditDistanceP(t: string, s: string) returns (d: nat)
    ensures d == Distance(PATTERN, t, s)
  {
    d := FillMatrix(PATTERN, t, s);
  }

  function Fold(s: string): (r: string)
    ensures |r| == |s|
  {
    seq(|s|, i requires 0 <= i < |s| => FoldChar(s[i]))
  }

  lemma FoldedMatch(t: string, s: string, i: nat, j: nat)
    requires 0 < i <= |t| && 0 < j <= |s|
    ensures SAME(t[i - 1], s[j - 1]) <==> EQUAL(Fold(t)[i - 1], Fold(s)[j - 1])
  {
  }

  /** editDistanceS is editDistance of the case-folded strings. */
  lemma {:induction false} FoldedCells(t: string, s: string, i: nat, j: nat)
    requires i <= |t| && j <= |s|
    ensures Cell(SAME, t, s, i, j) == Cell(EQUAL, Fold(t), Fold(s), i, j)
    decreases i + j
  {
    hide Fold, IsSame;
    if i > 0 && j > 0 {
      FoldedMatch(t, s, i, j);
      FoldedCells(t, s, i - 1, j - 1);
      FoldedCells(t, s, i - 1, j);
      FoldedCells(t, s, i, j - 1);
    }
  }

  lemma FoldedDistance(t: string, s: string)
    ensures Distance(SAME, t, s) == Distance(EQUAL, Fold(t), Fold(s))
  {
    FoldedCells(t, s, |t|, |s|);
  }

  /** editDistance is a metric on strings. */
  lemma Metric(t: string, s: string, u: string)
    ensures Distance(EQUAL, t, s) == 0 <==> t == s
    ensures Distance(EQUAL, t, s) == Distance(EQUAL, s, t)
    ensures Distance(EQUAL, t, u) <= Distance(EQUAL, t, s) + Distance(EQUAL, s, u)
    ensures Max(|t| - |s|, |s| - |t|) <= Distance(EQUAL, t, s) <= Max(|t|, |s|)
  {
    hide Cell;
    ZeroIffFits(EQUAL, t, s, |t|, |s|);
    Symmetric(EQUAL, t, s, |t|, |s|);
    Triangle(EQUAL, t, s, u, |t|, |s|, |u|);
    Bounds(EQUAL, t, s, |t|, |s|);
  }

  /** editDistanceS is a pseudometric: it is zero exactly for strings that differ in case only. */
  lemma PseudoMetric(t: string, s: string, u: string)
    ensures Distance(SAME, t, s) == 0 <==> Fold(t) == Fold(s)
    ensures Distance(SAME, t, s) == Distance(SAME, s, t)
    ensures Distance(SAME, t, u) <= Distance(SAME, t, s) + Distance(SAME, s, u)
    ensures Max(|t| - |s|, |s| - |t|) <= Distance(SAME, t, s) <= Max(|t|, |s|)
  {
    hide Distance;
    FoldedDistance(t, s);
    FoldedDistance(s, t);
    FoldedDistance(s, u);
    FoldedDistance(t, u);
    Metric(Fold(t), Fold(s), Fold(u));
  }

  /** For every match relation, the matrix holds the least cost of an alignment. */
  lemma DistanceIsLeastCost(fits: Fits, t: string, s: string)
    ensures exists a :: Aligns(a, |t|, |s|) && Cost(fits, t, s, a, |t|, |s|) == Distance(fits, t, s)
    ensures forall a :: Aligns(a, |t|, |s|) ==> Cost(fits, t, s, a, |t|, |s|) >= Distance(fits, t, s)
  {
    var a := Attained(fits, t, s, |t|, |s|);
    forall b | Aligns(b, |t|, |s|) ensures Cost(fits, t, s, b, |t|, |s|) >= Distance(fits, t, s) {
      NoCheaper(fits, t, s, b, |t|, |s|);
    }
  }
}
