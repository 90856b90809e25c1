/** The two-bit bucket flags, packed sixteen to a 32-bit word. */
module KhashFlags {

  /** The meaning of a flag's two bits: 2 is "empty", 1 is "deleted", 0 is neither. */
  datatype Slot = Live | Deleted | Empty | Both

  /** Where the bits of bucket i sit in its word: twice i mod 16. */
  function Shift(i: nat): (p: bv32)
    ensures p <= 30
  {
    var r := i % 16;
    if r < 8 then
      if r < 4 then (if r == 0 then 0 else if r == 1 then 2 else if r == 2 then 4 else 6)
      else (if r == 4 then 8 else if r == 5 then 10 else if r == 6 then 12 else 14)
    else
      if r < 12 then (if r == 8 then 16 else if r == 9 then 18 else if r == 10 then 20 else 22)
      else (if r == 12 then 24 else if r == 13 then 26 else if r == 14 then 28 else 30)
  }

  /** Whether any of the given bits is set at a shift. */
  predicate Test(w: bv32, p: bv32, bits: bv32)
    requires p <= 30
  {
    (w >> p) & bits != 0
  }

  predicate IsEmpty(w: bv32, i: nat) { Test(w, Shift(i), 2) }

  predicate IsDel(w: bv32, i: nat) { Test(w, Shift(i), 1) }

  predicate IsEither(w: bv32, i: nat) { Test(w, Shift(i), 3) }

  function SetIsDelTrue(w: bv32, i: nat): bv32 { SetBit(w, Shift(i)) }

  function SetIsEmptyFalse(w: bv32, i: nat): bv32 { ClearEmptyBit(w, Shift(i)) }

  function SetIsBothFalse(w: bv32, i: nat): bv32 { ClearBits(w, Shift(i)) }

  function SetBit(w: bv32, p: bv32): bv32
    requires p <= 30
  {
    w | (1 << p)
  }

  function ClearEmptyBit(w: bv32, p: bv32): bv32
    requires p <= 30
  {
    w & !(2 << p)
  }

  function ClearBits(w: bv32, p: bv32): bv32
    requires p <= 30
  {
    w & !(3 << p)
  }

  function DecodeAt(w: bv32, p: bv32): Slot
    requires p <= 30
  {
    var b := (w >> p) & 3;
    if b == 0 then Live else if b == 1 then Deleted else if b == 2 then Empty else Both
  }

  function SlotOf(w: bv32, i: nat): Slot {
    DecodeAt(w, Shift(i))
  }

  /** The flags of the first n buckets. */
  function Slots(f: seq<bv32>, n: nat): (s: seq<Slot>)
    requires n <= 16 * |f|
    ensures |s| == n
  {
    seq(n, i requires 0 <= i < n => SlotOf(f[i / 16], i))
  }

  // ---------- single words ----------

  lemma TestsAgree(w: bv32, i: nat)
    ensures IsEmpty(w, i) <==> SlotOf(w, i) in {Empty, Both}
    ensures IsDel(w, i) <==> SlotOf(w, i) in {Deleted, Both}
    ensures IsEither(w, i) <==> SlotOf(w, i) != Live
  {
    hide Shift, Test, DecodeAt;
    TestsDecode(w, Shift(i));
  }

  lemma TestsDecode(w: bv32, p: bv32)
    requires p <= 30
    ensures Test(w, p, 2) <==> DecodeAt(w, p) in {Empty, Both}
    ensures Test(w, p, 1) <==> DecodeAt(w, p) in {Deleted, Both}
    ensures Test(w, p, 3) <==> DecodeAt(w, p) != Live
  {
  }

  /** Shifts are even and stay inside the word. */
  lemma ShiftRange(i: nat)
    ensures Shift(i) <= 30 && Shift(i) & 1 == 0
  {
  }

  /** Shifts tell the sixteen buckets of a word apart. */
  lemma ShiftInjective(i: nat, j: nat)
    requires i / 16 == j / 16 && i != j
    ensures Shift(i) != Shift(j)
  {
    assert i % 16 != j % 16;
  }

  lemma ShiftFacts(i: nat, j: nat)
    requires i / 16 == j / 16
    ensures Shift(i) <= 30 && Shift(i) & 1 == 0 && Shift(j) <= 30 && Shift(j) & 1 == 0
    ensures i != j ==> Shift(i) != Shift(j)
  {
    hide Shift;
    ShiftRange(i);
    ShiftRange(j);
    if i != j { ShiftInjective(i, j); }
  }

  lemma SetBitDecodes(w: bv32, p: bv32, q: bv32)
    requires p <= 30 && p & 1 == 0 && q <= 30 && q & 1 == 0
    ensures p == q && DecodeAt(w, q) == Live ==> DecodeAt(SetBit(w, p), q) == Deleted
    ensures p != q ==> DecodeAt(SetBit(w, p), q) == DecodeAt(w, q)
  {
  }

  lemma DelTrueWord(w: bv32, i: nat, j: nat)
    requires i / 16 == j / 16
    ensures i == j && SlotOf(w, i) == Live ==> SlotOf(SetIsDelTrue(w, i), j) == Deleted
    ensures i != j ==> SlotOf(SetIsDelTrue(w, i), j) == SlotOf(w, j)
  {
    hide Shift, DecodeAt, SetBit;
    ShiftFacts(i, j);
    SetBitDecodes(w, Shift(i), Shift(j));
  }

  lemma ClearEmptyBitDecodes(w: bv32, p: bv32, q: bv32)
    requires p <= 30 && p & 1 == 0 && q <= 30 && q & 1 == 0
    ensures p == q && DecodeAt(w, q) == Empty ==> DecodeAt(ClearEmptyBit(w, p), q) == Live
    ensures p != q ==> DecodeAt(ClearEmptyBit(w, p), q) == DecodeAt(w, q)
  {
  }

  lemma EmptyFalseWord(w: bv32, i: nat, j: nat)
    requires i / 16 == j / 16
    ensures i == j && SlotOf(w, i) == Empty ==> SlotOf(SetIsEmptyFalse(w, i), j) == Live
    ensures i != j ==> SlotOf(SetIsEmptyFalse(w, i), j) == SlotOf(w, j)
  {
    hide Shift, DecodeAt, ClearEmptyBit;
    ShiftFacts(i, j);
    ClearEmptyBitDecodes(w, Shift(i), Shift(j));
  }

  lemma ClearBitsDecodes(w: bv32, p: bv32, q: bv32)
    requires p <= 30 && p & 1 == 0 && q <= 30 && q & 1 == 0
    ensures p == q ==> DecodeAt(ClearBits(w, p), q) == Live
    ensures p != q ==> DecodeAt(ClearBits(w, p), q) == DecodeAt(w, q)
  {
  }

  lemma BothFalseWord(w: bv32, i: nat, j: nat)
    requires i / 16 == j / 16
    ensures i == j ==> SlotOf(SetIsBothFalse(w, i), j) == Live
    ensures i != j ==> SlotOf(SetIsBothFalse(w, i), j) == SlotOf(w, j)
  {
    hide Shift, DecodeAt, ClearBits;
    ShiftFacts(i, j);
    ClearBitsDecodes(w, Shift(i), Shift(j));
  }

  /** memset with 0xaa marks every bucket empty. */
  lemma AllEmptyWord(i: nat)
    ensures SlotOf(0xaaaa_aaaa, i) == Empty
  {
    hide Shift, DecodeAt;
    ShiftRange(i);
    EvenShift(Shift(i));
  }

  lemma EvenShift(p: bv32)
    requires p <= 30 && p & 1 == 0
    ensures DecodeAt(0xaaaa_aaaa, p) == Empty
  {
  }

  // ---------- the packed array ----------

  /** Rewriting the word of bucket i changes at most the slots of that word. */
  lemma UpdateWord(f: seq<bv32>, n: nat, i: nat, w: bv32, s: Slot)
    requires i < n <= 16 * |f|
    requires forall j :: 0 <= j < n && j / 16 == i / 16 ==>
               SlotOf(w, j) == if i == j then s else SlotOf(f[j / 16], j)
    ensures Slots(f[i / 16 := w], n) == Slots(f, n)[i := s]
  {
    hide SlotOf;
    var g := f[i / 16 := w];
    forall j | 0 <= j < n ensures Slots(g, n)[j] == Slots(f, n)[i := s][j] {
    }
  }

  lemma MarkDeleted(f: seq<bv32>, n: nat, i: nat)
    requires i < n <= 16 * |f| && Slots(f, n)[i] == Live
    ensures Slots(f[i / 16 := SetIsDelTrue(f[i / 16], i)], n) == Slots(f, n)[i := Deleted]
  {
    hide SlotOf, SetIsDelTrue;
    var w := SetIsDelTrue(f[i / 16], i);
    forall j | 0 <= j < n && j / 16 == i / 16
      ensures SlotOf(w, j) == if i == j then Deleted else SlotOf(f[j / 16], j)
    {
      DelTrueWord(f[i / 16], i, j);
    }
    UpdateWord(f, n, i, w, Deleted);
  }

  lemma MarkOccupied(f: seq<bv32>, n: nat, i: nat)
    requires i < n <= 16 * |f| && Slots(f, n)[i] == Empty
    ensures Slots(f[i / 16 := SetIsEmptyFalse(f[i / 16], i)], n) == Slots(f, n)[i := Live]
  {
    hide SlotOf, SetIsEmptyFalse;
    var w := SetIsEmptyFalse(f[i / 16], i);
    forall j | 0 <= j < n && j / 16 == i / 16
      ensures SlotOf(w, j) == if i == j then Live else SlotOf(f[j / 16], j)
    {
      EmptyFalseWord(f[i / 16], i, j);
    }
    UpdateWord(f, n, i, w, Live);
  }

  lemma MarkLive(f: seq<bv32>, n: nat, i: nat)
    requires i < n <= 16 * |f|
    ensures Slots(f[i / 16 := SetIsBothFalse(f[i / 16], i)], n) == Slots(f, n)[i := Live]
  {
    hide SlotOf, SetIsBothFalse;
    var w := SetIsBothFalse(f[i / 16], i);
    forall j | 0 <= j < n && j / 16 == i / 16
      ensures SlotOf(w, j) == if i == j then Live else SlotOf(f[j / 16], j)
    {
      BothFalseWord(f[i / 16], i, j);
    }
    UpdateWord(f, n, i, w, Live);
  }

  lemma AllEmpty(f: seq<bv32>, n: nat)
    requires n <= 16 * |f| && forall k :: 0 <= k < |f| ==> f[k] == 0xaaaa_aaaa
    ensures forall i :: 0 <= i < n ==> Slots(f, n)[i] == Empty
  {
    forall i | 0 <= i < n ensures Slots(f, n)[i] == Empty {
      AllEmptyWord(i);
    }
  }

  /** Testing the word of a bucket reads its slot. */
  lemma Reads(f: seq<bv32>, n: nat, i: nat)
    requires i < n <= 16 * |f|
    ensures IsEmpty(f[i / 16], i) <==> Slots(f, n)[i] == Empty || Slots(f, n)[i] == Both
    ensures IsDel(f[i / 16], i) <==> Slots(f, n)[i] == Deleted || Slots(f, n)[i] == Both
    ensures IsEither(f[i / 16], i) <==> Slots(f, n)[i] != Live
  {
    TestsAgree(f[i / 16], i);
  }

  // ---------- the flag macros on an array ----------

  predicate EmptyAt(f: array<bv32>, ghost n: nat, i: nat)
    requires i < n <= 16 * f.Length
    reads f
    ensures EmptyAt(f, n, i) <==> Slots(f[..], n)[i] == Empty || Slots(f[..], n)[i] == Both
  {
    Reads(f[..], n, i);
    IsEmpty(f[i / 16], i)
  }

  predicate DeletedAt(f: array<bv32>, ghost n: nat, i: nat)
    requires i < n <= 16 * f.Length
    reads f
    ensures DeletedAt(f, n, i) <==> Slots(f[..], n)[i] == Deleted || Slots(f[..], n)[i] == Both
  {
    Reads(f[..], n, i);
    IsDel(f[i / 16], i)
  }

  predicate EitherAt(f: array<bv32>, ghost n: nat, i: nat)
    requires i < n <= 16 * f.Length
    reads f
    ensures EitherAt(f, n, i) <==> Slots(f[..], n)[i] != Live
  {
    Reads(f[..], n, i);
    IsEither(f[i / 16], i)
  }

  method SetDeleted(f: array<bv32>, ghost n: nat, i: nat)
    requires i < n <= 16 * f.Length && Slots(f[..], n)[i] == Live
    modifies f
    ensures Slots(f[..], n) == old(Slots(f[..], n))[i := Deleted]
  {
    hide SetIsDelTrue, SlotOf;
    MarkDeleted(f[..], n, i);
    ghost var was := f[..];
    f[i / 16] := SetIsDelTrue(f[i / 16], i);
    assert f[..] == was[i / 16 := SetIsDelTrue(was[i / 16], i)];
  }

  method SetOccupied(f: array<bv32>, ghost n: nat, i: nat)
    requires i < n <= 16 * f.Length && Slots(f[..], n)[i] == Empty
    modifies f
    ensures Slots(f[..], n) == old(Slots(f[..], n))[i := Live]
  {
    hide SetIsEmptyFalse, SlotOf;
    MarkOccupied(f[..], n, i);
    ghost var was := f[..];
    f[i / 16] := SetIsEmptyFalse(f[i / 16], i);
    assert f[..] == was[i / 16 := SetIsEmptyFalse(was[i / 16], i)];
  }

  method SetLive(f: array<bv32>, ghost n: nat, i: nat)
    requires i < n <= 16 * f.Length
    modifies f
    ensures Slots(f[..], n) == old(Slots(f[..], n))[i := Live]
  {
    hide SetIsBothFalse, SlotOf;
    MarkLive(f[..], n, i);
    ghost var was := f[..];
    f[i / 16] := SetIsBothFalse(f[i / 16], i);
    assert f[..] == was[i / 16 := SetIsBothFalse(was[i / 16], i)];
  }

  /** memset: every bucket becomes empty. */
  method SetAllEmpty(f: array<bv32>, ghost n: nat)
    requires n <= 16 * f.Length
    modifies f
    ensures forall i :: 0 <= i < n ==> Slots(f[..], n)[i] == Empty
  {
    hide SlotOf;
    forall k | 0 <= k < f.Length {
      f[k] := 0xaaaa_aaaa;
    }
    AllEmpty(f[..], n);
  }
}
