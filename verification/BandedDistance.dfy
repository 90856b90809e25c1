/** The thresholded, banded edit distance. It is not the edit distance: the border of its matrix
  * stays 0, so a path may start anywhere on the border for free. */
module BandedDistance {
  import opened EditDistance

  const CAP: int := 500

  predicate InBand(i: nat, j: nat, threshold: int) {
    i - j <= threshold && j - i <= threshold
  }

  /** What the two guarded moves and the diagonal leave in a cell of the band. The arguments are the
    * cells above, to the left and on the diagonal. */
  function Relax(i: nat, j: nat, threshold: int, up: int, left: int, diagonal: int, differ: bool): int {
    var d0 := CAP;
    var d1 := if j - i + 1 <= threshold && up + 1 < d0 then up + 1 else d0;
    var d2 := if i - j + 1 <= threshold && left + 1 < d1 then left + 1 else d1;
    Min(d2, diagonal + if differ then 1 else 0)
  }

  /** The cell of the banded matrix: 0 on the border and outside the band. */
  function BandCell(t: string, s: string, threshold: int, i: nat, j: nat): (d: nat)
    requires i <= |t| && j <= |s|
    decreases i + j
  {
    if i == 0 || j == 0 || !InBand(i, j, threshold) then 0
    else
      Relax(i, j, threshold, BandCell(t, s, threshold, i - 1, j), BandCell(t, s, threshold, i, j - 1),
            BandCell(t, s, threshold, i - 1, j - 1), !IsSame(t[i - 1], s[j - 1]))
  }

  function Banded(t: string, s: string, threshold: int): (r: int)
    ensures -1 <= r
  {
    if |t| - |s| > threshold || |s| - |t| > threshold then -1
    else if BandCell(t, s, threshold, |t|, |s|) > threshold then -1
    else BandCell(t, s, threshold, |t|, |s|)
  }

  // ---------- no false rejection ----------

  /** Wherever the true distance is within the threshold, the banded cell does not exceed it. */
  lemma {:induction false} BandBelow(t: string, s: string, threshold: int, i: nat, j: nat)
    requires i <= |t| && j <= |s| && Cell(SAME, t, s, i, j) <= threshold
    ensures BandCell(t, s, threshold, i, j) <= Cell(SAME, t, s, i, j)
    decreases i + j
  {
    hide Cell, BandCell;
    if i == 0 || j == 0 {
      BandBorder(t, s, threshold, i, j);
    } else {
      Bounds(SAME, t, s, i, j);
      LastMove(SAME, t, s, i, j);
      BandMoves(t, s, threshold, i, j);
      var d := Cell(SAME, t, s, i, j);
      if Cell(SAME, t, s, i - 1, j) < d { BandBelow(t, s, threshold, i - 1, j); Bounds(SAME, t, s, i - 1, j); }
      if Cell(SAME, t, s, i, j - 1) < d { BandBelow(t, s, threshold, i, j - 1); Bounds(SAME, t, s, i, j - 1); }
      if Cell(SAME, t, s, i - 1, j - 1) <= d { BandBelow(t, s, threshold, i - 1, j - 1); }
    }
  }

  lemma BandBorder(t: string, s: string, threshold: int, i: nat, j: nat)
    requires i <= |t| && j <= |s| && (i == 0 || j == 0)
    ensures BandCell(t, s, threshold, i, j) == 0
  {
  }

  /** A cell of the band never exceeds what its moves inside the band offer. */
  lemma BandMoves(t: string, s: string, threshold: int, i: nat, j: nat)
    requires 0 < i <= |t| && 0 < j <= |s| && InBand(i, j, threshold)
    ensures var d := BandCell(t, s, threshold, i, j);
            && (InBand(i - 1, j, threshold) ==> d <= BandCell(t, s, threshold, i - 1, j) + 1)
            && (InBand(i, j - 1, threshold) ==> d <= BandCell(t, s, threshold, i, j - 1) + 1)
            && d <= BandCell(t, s, threshold, i - 1, j - 1) + if IsSame(t[i - 1], s[j - 1]) then 0 else 1
  {
  }

  /** A pair within the threshold is never rejected, and its value is at most the distance. */
  lemma NoFalseRejection(t: string, s: string, threshold: int)
    requires Distance(SAME, t, s) <= threshold
    ensures 0 <= Banded(t, s, threshold) <= Distance(SAME, t, s)
  {
    BandBelow(t, s, threshold, |t|, |s|);
    Bounds(SAME, t, s, |t|, |s|);
  }

  /** What a thresholded distance would be: the distance, or -1 above the threshold. */
  function Thresholded(t: string, s: string, threshold: int): int {
    if Distance(SAME, t, s) <= threshold then Distance(SAME, t, s) else -1
  }

  /** At every positive threshold "xa" and "a", which are at distance 1, get the value 0. */
  lemma FreeBorder(threshold: int)
    requires threshold > 0
    ensures Banded("xa", "a", threshold) == 0 && Distance(SAME, "xa", "a") == 1
  {
    var t, s := "xa", "a";
    assert BandCell(t, s, threshold, 1, 0) == 0;
    assert BandCell(t, s, threshold, 2, 1) == 0;
    assert Cell(SAME, t, s, 1, 0) == 1;
  }

  /** At threshold 0 only the diagonal is in the band. */
  lemma {:induction false} ZeroBand(t: string, s: string, k: nat)
    requires k <= |t| && k <= |s|
    ensures BandCell(t, s, 0, k, k) == 0 <==> forall m :: 0 <= m < k ==> IsSame(t[m], s[m])
    decreases k
  {
    hide IsSame;
    if k > 0 { ZeroBand(t, s, k - 1); }
  }

  /** At threshold 0 and below, the banded value is the thresholded distance. */
  lemma NoSlack(t: string, s: string, threshold: int)
    requires threshold <= 0
    ensures Banded(t, s, threshold) == Thresholded(t, s, threshold)
  {
    hide Cell, BandCell, IsSame;
    Bounds(SAME, t, s, |t|, |s|);
    if threshold == 0 && |t| == |s| {
      ZeroBand(t, s, |t|);
      ZeroIffFits(SAME, t, s, |t|, |s|);
    }
  }

  /** The thresholds at which editDistanceT is the thresholded distance on all pairs: 0 and below. */
  lemma ExactOnlyWithoutSlack(threshold: int)
    ensures threshold <= 0 <==> forall t: string, s: string :: Banded(t, s, threshold) == Thresholded(t, s, threshold)
  {
    hide Banded, Distance;
    if threshold <= 0 {
      forall t: string, s: string ensures Banded(t, s, threshold) == Thresholded(t, s, threshold) {
        NoSlack(t, s, threshold);
      }
    } else {
      FreeBorder(threshold);
      assert Banded("xa", "a", threshold) != Thresholded("xa", "a", threshold);
    }
  }

  // ---------- what the banded value is ----------

  /** The alignment stays in the band and ends on the border. */
  predicate Slides(a: seq<Step>, i: nat, j: nat, threshold: int) {
    if a == [] then i == 0 || j == 0
    else
      var rest := a[..|a| - 1];
      InBand(i, j, threshold) && i > 0 && j > 0 &&
      match a[|a| - 1]
      case Both => Slides(rest, i - 1, j - 1, threshold)
      case OnlyT => InBand(i - 1, j, threshold) && Slides(rest, i - 1, j, threshold)
      case OnlyS => InBand(i, j - 1, threshold) && Slides(rest, i, j - 1, threshold)
  }

  function SlideCost(t: string, s: string, a: seq<Step>, i: nat, j: nat, threshold: int): nat
    requires i <= |t| && j <= |s| && Slides(a, i, j, threshold)
  {
    if a == [] then 0
    else
      var rest := a[..|a| - 1];
      match a[|a| - 1]
      case Both => SlideCost(t, s, rest, i - 1, j - 1, threshold) + if IsSame(t[i - 1], s[j - 1]) then 0 else 1
      case OnlyT => SlideCost(t, s, rest, i - 1, j, threshold) + 1
      case OnlyS => SlideCost(t, s, rest, i, j - 1, threshold) + 1
  }

  /** No sliding alignment costs less than the cell. */
  lemma {:induction false} NoCheaperSlide(t: string, s: string, a: seq<Step>, i: nat, j: nat, threshold: int)
    requires i <= |t| && j <= |s| && Slides(a, i, j, threshold)
    ensures BandCell(t, s, threshold, i, j) <= SlideCost(t, s, a, i, j, threshold)
    decreases |a|
  {
    if a != [] {
      var rest := a[..|a| - 1];
      match a[|a| - 1]
      case Both => NoCheaperSlide(t, s, rest, i - 1, j - 1, threshold);
      case OnlyT => NoCheaperSlide(t, s, rest, i - 1, j, threshold);
      case OnlyS => NoCheaperSlide(t, s, rest, i, j - 1, threshold);
    }
  }

  /** Below the cap, some sliding alignment costs exactly as much as the cell. */
  lemma {:induction false} SlideAttained(t: string, s: string, i: nat, j: nat, threshold: int) returns (a: seq<Step>)
    requires i <= |t| && j <= |s| && (i == 0 || j == 0 || InBand(i, j, threshold))
    requires BandCell(t, s, threshold, i, j) < CAP
    ensures Slides(a, i, j, threshold)
    ensures SlideCost(t, s, a, i, j, threshold) == BandCell(t, s, threshold, i, j)
    decreases i + j
  {
    hide IsSame;
    if i == 0 || j == 0 {
      a := [];
    } else {
      var d := BandCell(t, s, threshold, i, j);
      var rest;
      if d == BandCell(t, s, threshold, i - 1, j - 1) + if IsSame(t[i - 1], s[j - 1]) then 0 else 1 {
        rest := SlideAttained(t, s, i - 1, j - 1, threshold);
        a := rest + [Both];
      } else if j - i + 1 <= threshold && d == BandCell(t, s, threshold, i - 1, j) + 1 {
        rest := SlideAttained(t, s, i - 1, j, threshold);
        a := rest + [OnlyT];
      } else {
        rest := SlideAttained(t, s, i, j - 1, threshold);
        a := rest + [OnlyS];
      }
      assert a[..|a| - 1] == rest;
    }
  }

  lemma BandCap(t: string, s: string, threshold: int, i: nat, j: nat)
    requires i <= |t| && j <= |s|
    ensures BandCell(t, s, threshold, i, j) <= CAP
  {
  }

  /** At any threshold, some sliding alignment costs as much as the cell, costs being counted up to the cap. */
  lemma {:induction false} CappedAttained(t: string, s: string, i: nat, j: nat, threshold: int) returns (a: seq<Step>)
    requires i <= |t| && j <= |s| && (i == 0 || j == 0 || InBand(i, j, threshold))
    ensures Slides(a, i, j, threshold)
    ensures Min(CAP, SlideCost(t, s, a, i, j, threshold)) == BandCell(t, s, threshold, i, j)
    decreases i + j
  {
    hide IsSame, BandCell;
    BandCap(t, s, threshold, i, j);
    if BandCell(t, s, threshold, i, j) < CAP {
      a := SlideAttained(t, s, i, j, threshold);
    } else if i == 0 || j == 0 {
      BandBorder(t, s, threshold, i, j);
      a := [];
    } else {
      BandMoves(t, s, threshold, i, j);
      var rest := CappedAttained(t, s, i - 1, j - 1, threshold);
      a := rest + [Both];
      assert a[..|a| - 1] == rest;
      NoCheaperSlide(t, s, a, i, j, threshold);
    }
  }

  /** What editDistanceT returns, at every threshold: v >= 0 exactly when v is within the threshold and
    * is the least cost, counted up to the cap, of an alignment that stays in the band and may drop a
    * prefix of either string for free. */
  lemma BandedIsFreeAlignment(t: string, s: string, threshold: int, v: nat)
    requires |t| - |s| <= threshold && |s| - |t| <= threshold
    ensures Banded(t, s, threshold) == v <==>
              && v <= threshold
              && (exists a :: Slides(a, |t|, |s|, threshold) && Min(500, SlideCost(t, s, a, |t|, |s|, threshold)) == v)
              && (forall a :: Slides(a, |t|, |s|, threshold) ==> Min(500, SlideCost(t, s, a, |t|, |s|, threshold)) >= v)
  {
    hide BandCell, Slides, SlideCost;
    var d := BandCell(t, s, threshold, |t|, |s|);
    BandCap(t, s, threshold, |t|, |s|);
    forall a | Slides(a, |t|, |s|, threshold) ensures Min(CAP, SlideCost(t, s, a, |t|, |s|, threshold)) >= d {
      NoCheaperSlide(t, s, a, |t|, |s|, threshold);
    }
    var a := CappedAttained(t, s, |t|, |s|, threshold);
    assert Slides(a, |t|, |s|, threshold) && Min(CAP, SlideCost(t, s, a, |t|, |s|, threshold)) == d;
  }

  // ---------- the early exit ----------

  /** No cell of row k in the loop's range is within the threshold. */
  ghost predicate DryRow(t: string, s: string, threshold: int, k: nat)
    requires k <= |t|
  {
    forall l :: 1 <= l <= |s| && InBand(k, l, threshold) ==> BandCell(t, s, threshold, k, l) > threshold
  }

  /** Below the diagonal part of the matrix a dry row is followed by dry rows: every cell of the next
    * row is reached from a cell of this row that is not on the border, or from its own left. */
  lemma {:induction false} DryNext(t: string, s: string, threshold: int, i: nat, j: nat)
    requires 0 <= threshold < i < |t| && threshold < CAP && DryRow(t, s, threshold, i)
    requires 1 <= j <= |s| && InBand(i + 1, j, threshold)
    ensures BandCell(t, s, threshold, i + 1, j) > threshold
    decreases j
  {
    hide IsSame;
    assert InBand(i, j - 1, threshold) && j - 1 >= 1;
    if InBand(i + 1, j - 1, threshold) { DryNext(t, s, threshold, i, j - 1); }
  }

  lemma {:induction false} DryToTheEnd(t: string, s: string, threshold: int, i: nat, k: nat)
    requires 0 <= threshold < i <= k <= |t| && threshold < CAP && DryRow(t, s, threshold, i)
    ensures DryRow(t, s, threshold, k)
    decreases k
  {
    hide BandCell;
    if i < k {
      DryToTheEnd(t, s, threshold, i, k - 1);
      forall l | 1 <= l <= |s| && InBand(k, l, threshold) ensures BandCell(t, s, threshold, k, l) > threshold {
        DryNext(t, s, threshold, k - 1, l);
      }
    }
  }

  /** Once a row behind the threshold is dry the answer is -1, so that the early exit is right and the
    * flag, which starts uninitialised and is never set again, does not matter. */
  lemma EarlyExitIsRight(t: string, s: string, threshold: int, i: nat)
    requires |t| - |s| <= threshold && |s| - |t| <= threshold
    requires threshold < i <= |t| && DryRow(t, s, threshold, i)
    ensures Banded(t, s, threshold) == -1
  {
    hide BandCell;
    if threshold < CAP {
      DryToTheEnd(t, s, threshold, i, |t|);
    } else {
      BandCap(t, s, threshold, i, Max(1, i - threshold));
    }
  }

  // ---------- the method ----------

  /** The cells that matter: those of the border and of the band. */
  predicate Used(i: nat, j: nat, threshold: int) {
    i == 0 || j == 0 || InBand(i, j, threshold)
  }

  /** A cell of the band depends on its neighbours above and to the left only where they are in the band. */
  lemma RelaxReads(i: nat, j: nat, threshold: int, up: int, left: int, up': int, left': int, diagonal: int, differ: bool)
    requires 0 < i && 0 < j && InBand(i, j, threshold)
    requires Used(i - 1, j, threshold) ==> up == up'
    requires Used(i, j - 1, threshold) ==> left == left'
    ensures Relax(i, j, threshold, up, left, diagonal, differ) == Relax(i, j, threshold, up', left', diagonal, differ)
  {
  }

  /** editDistanceT, for every value the uninitialised flag may have, and whatever the cells that are
    * not on the border hold before they are written: no cell outside the border and the band is read. */
  method EditDistanceT(t: string, s: string, threshold: int, flag0: int, before: (int, int) -> int) returns (r: int)
    ensures r == Banded(t, s, threshold)
  {
    hide Banded, BandCell, BandRow;
    BandedIs(t, s, threshold);
    if |t| - |s| > threshold || |s| - |t| > threshold { return -1; }
    var flag := flag0;
    var d := new int[|t| + 1, |s| + 1]((i, j) => if i == 0 || j == 0 then 0 else before(i, j));
    var s1, s2 := Fold(t), Fold(s);
    FirstRow(t, s, threshold, d);
    for i := 1 to |t| + 1
      invariant BandRow(t, s, threshold, d, i - 1)
      invariant forall k :: 0 <= k <= |t| ==> d[k, 0] == 0
      invariant flag == 0 || i == 1 || DryRow(t, s, threshold, i - 1)
    {
      var below := FillBandRow(t, s, threshold, d, s1, s2, i);
      if below { flag := 0; }
      if flag != 0 && i > threshold {
        EarlyExitIsRight(t, s, threshold, i);
        return -1;
      }
    }
    RowAt(t, s, threshold, d, |t|, |s|);
    if d[|t|, |s|] > threshold { r := -1; } else { r := d[|t|, |s|]; }
  }

  lemma BandedIs(t: string, s: string, threshold: int)
    ensures Banded(t, s, threshold) ==
            if |t| - |s| > threshold || |s| - |t| > threshold || BandCell(t, s, threshold, |t|, |s|) > threshold then -1
            else BandCell(t, s, threshold, |t|, |s|)
  {
  }

  /** The cells of the row that matter hold their values. */
  ghost predicate BandRow(t: string, s: string, threshold: int, d: array2<int>, k: nat)
    requires k < d.Length0 == |t| + 1 && d.Length1 == |s| + 1
    reads d
  {
    forall l :: 0 <= l <= |s| && Used(k, l, threshold) ==> d[k, l] == BandCell(t, s, threshold, k, l)
  }

  lemma RowAt(t: string, s: string, threshold: int, d: array2<int>, k: nat, l: nat)
    requires k < d.Length0 == |t| + 1 && d.Length1 == |s| + 1 && l <= |s|
    requires BandRow(t, s, threshold, d, k)
    ensures Used(k, l, threshold) ==> d[k, l] == BandCell(t, s, threshold, k, l)
  {
  }

  lemma FirstRow(t: string, s: string, threshold: int, d: array2<int>)
    requires d.Length0 == |t| + 1 && d.Length1 == |s| + 1 && forall l :: 0 <= l <= |s| ==> d[0, l] == 0
    ensures BandRow(t, s, threshold, d, 0)
  {
  }

  /** One row of the band; reports whether some cell came out within the threshold. */
  method FillBandRow(t: string, s: string, threshold: int, d: array2<int>, s1: string, s2: string, i: nat)
    returns (below: bool)
    requires threshold >= 0 && d.Length0 == |t| + 1 && d.Length1 == |s| + 1 && 1 <= i <= |t|
    requires s1 == Fold(t) && s2 == Fold(s)
    requires BandRow(t, s, threshold, d, i - 1) && d[i, 0] == 0
    modifies d
    ensures BandRow(t, s, threshold, d, i)
    ensures forall k, l :: 0 <= k <= |t| && 0 <= l <= |s| && (k != i || l == 0) ==> d[k, l] == old(d[k, l])
    ensures !below <==> DryRow(t, s, threshold, i)
  {
    hide BandCell, Fold, Relax;
    BandBorder(t, s, threshold, i, 0);
    below := false;
    var st := Max(1, i - threshold);
    var en := Min(|s|, i + threshold);
    var j := st;
    while j <= en
      invariant st <= j
      invariant forall l :: 0 <= l <= |s| && Used(i, l, threshold) && (l < j || en < l) ==> d[i, l] == BandCell(t, s, threshold, i, l)
      invariant forall k, l :: 0 <= k <= |t| && 0 <= l <= |s| && (k != i || l == 0) ==> d[k, l] == old(d[k, l])
      invariant !below <==> forall l :: st <= l < j && l <= en ==> BandCell(t, s, threshold, i, l) > threshold
    {
      BandStep(t, s, threshold, i, j);
      FoldAt(t, i - 1);
      FoldAt(s, j - 1);
      var differ := s1[i - 1] != s2[j - 1];
      RelaxReads(i, j, threshold, d[i - 1, j], d[i, j - 1], BandCell(t, s, threshold, i - 1, j),
                 BandCell(t, s, threshold, i, j - 1), BandCell(t, s, threshold, i - 1, j - 1), differ);
      RelaxCell(d, i, j, threshold, differ);
      if d[i, j] <= threshold { below := true; }
      j := j + 1;
    }
  }

  lemma FoldAt(t: string, k: nat)
    requires k < |t|
    ensures Fold(t)[k] == FoldChar(t[k])
  {
  }

  lemma BandStep(t: string, s: string, threshold: int, i: nat, j: nat)
    requires 0 < i <= |t| && 0 < j <= |s| && InBand(i, j, threshold)
    ensures BandCell(t, s, threshold, i, j) ==
            Relax(i, j, threshold, BandCell(t, s, threshold, i - 1, j), BandCell(t, s, threshold, i, j - 1),
                  BandCell(t, s, threshold, i - 1, j - 1), !IsSame(t[i - 1], s[j - 1]))
  {
  }

  /** The body of the inner loop. */
  method RelaxCell(d: array2<int>, i: nat, j: nat, threshold: int, differ: bool)
    requires 0 < i < d.Length0 && 0 < j < d.Length1
    modifies d
    ensures d[i, j] == Relax(i, j, threshold, old(d[i - 1, j]), old(d[i, j - 1]), old(d[i - 1, j - 1]), differ)
    ensures forall k, l :: 0 <= k < d.Length0 && 0 <= l < d.Length1 && !(k == i && l == j) ==> d[k, l] == old(d[k, l])
  {
    d[i, j] := CAP;
    if j - i + 1 <= threshold && d[i - 1, j] + 1 < d[i, j] { d[i, j] := d[i - 1, j] + 1; }
    if i - j + 1 <= threshold && d[i, j - 1] + 1 < d[i, j] { d[i, j] := d[i, j - 1] + 1; }
    d[i, j] := Min(d[i, j], d[i - 1, j - 1] + if differ then 1 else 0);
  }
}
