/** A stack of tag numbers in one 32-bit word, in base 20. */
module TagWords {

  const TOKEN_MAX_LEN: nat := 20
  const WORD_LIMIT: nat := 0x1_0000_0000

  type Word = w: nat | w < 0x1_0000_0000

  /** Tag numbers that are digits other than 0. */
  predicate Tag(id: nat) {
    0 < id < TOKEN_MAX_LEN
  }

  predicate AllTags(ids: seq<nat>) {
    forall id :: id in ids ==> Tag(id)
  }

  /** The number whose base-20 digits are the stack, its top in the last place. */
  function Encode(ids: seq<nat>): nat {
    if ids == [] then 0 else Encode(ids[1..]) * TOKEN_MAX_LEN + ids[0]
  }

  /** What popping until 0 yields. */
  function Popped(w: nat): seq<nat> {
    if w % TOKEN_MAX_LEN == 0 then [] else [w % TOKEN_MAX_LEN] + Popped(w / TOKEN_MAX_LEN)
  }

  lemma DivMod(a: nat, d: nat)
    requires d < 20
    ensures (a * 20 + d) % 20 == d && (a * 20 + d) / 20 == a
  {
  }

  /** The word of a stack pops back to exactly that stack. */
  lemma {:induction false} PoppedEncode(ids: seq<nat>)
    requires AllTags(ids)
    ensures Popped(Encode(ids)) == ids && (Encode(ids) == 0 <==> ids == [])
  {
    if ids != [] {
      assert Tag(ids[0]);
      PoppedEncode(ids[1..]);
      DivMod(Encode(ids[1..]), ids[0]);
    }
  }

  /** The stack kept in a word. */
  class TagStack {
    var word: Word

    constructor ()
      ensures word == 0
    {
      word := 0;
    }

    /** tokenPush. */
    method Push(id: nat) returns (code: int)
      requires id < WORD_LIMIT
      modifies this
      ensures id == 0 || id > TOKEN_MAX_LEN ==> code == -2 && word == old(word)
      ensures 0 < id <= TOKEN_MAX_LEN && old(word) > (WORD_LIMIT - 1) / TOKEN_MAX_LEN ==> code == -1 && word == old(word)
      ensures 0 < id <= TOKEN_MAX_LEN && old(word) <= (WORD_LIMIT - 1) / TOKEN_MAX_LEN ==>
                code == 1 && word == Pushed(old(word), id)
    {
      if id == 0 || id > TOKEN_MAX_LEN { return -2; }
      if word > (WORD_LIMIT - 1) / TOKEN_MAX_LEN { return -1; }
      word := word * TOKEN_MAX_LEN % WORD_LIMIT;
      word := (word + id) % WORD_LIMIT;
      code := 1;
    }

    /** tokenPop. */
    method Pop() returns (id: nat)
      modifies this
      ensures id == old(word) % TOKEN_MAX_LEN && word == old(word) / TOKEN_MAX_LEN
    {
      id := word % TOKEN_MAX_LEN;
      word := word / TOKEN_MAX_LEN;
    }
  }

  /** Multiplying and adding on unsigned 32-bit words. */
  function Pushed(w: Word, id: nat): Word {
    (w * TOKEN_MAX_LEN % WORD_LIMIT + id) % WORD_LIMIT
  }

  /** Exactly when a pop undoes a push: the number is a digit other than 0 and the longer stack still
    * has a word. */
  lemma PushUndone(w: Word, id: nat)
    requires 0 < id <= TOKEN_MAX_LEN && w <= (WORD_LIMIT - 1) / TOKEN_MAX_LEN
    ensures Pushed(w, id) % TOKEN_MAX_LEN == id && Pushed(w, id) / TOKEN_MAX_LEN == w
            <==> Tag(id) && w * TOKEN_MAX_LEN + id < WORD_LIMIT
  {
    if w * 20 + id < 0x1_0000_0000 {
      assert Pushed(w, id) == w * 20 + id;
      if id < 20 { DivMod(w, id); } else { DivMod(w + 1, 0); }
    }
  }

  /** Two pushes that tokenPush lets through and no pop undoes: 20 is no digit, and a sum wraps. */
  lemma PushesNotUndone()
    ensures Pushed(0, 20) % TOKEN_MAX_LEN == 0 && Pushed(0, 20) / TOKEN_MAX_LEN == 1
    ensures 214748364 <= (WORD_LIMIT - 1) / TOKEN_MAX_LEN && Pushed(214748364, 16) == 0
  {
  }

  /** The guard of tokenPush lets every push through whose result has a word. */
  lemma GuardIsEnough(w: Word, id: nat)
    requires w * TOKEN_MAX_LEN + id < WORD_LIMIT
    ensures w <= (WORD_LIMIT - 1) / TOKEN_MAX_LEN && Pushed(w, id) == w * TOKEN_MAX_LEN + id
  {
  }

  /** Powers of the base. */
  function Power(n: nat): nat {
    if n == 0 then 1 else TOKEN_MAX_LEN * Power(n - 1)
  }

  lemma {:induction false} EncodeBelow(ids: seq<nat>)
    requires AllTags(ids)
    ensures Encode(ids) < Power(|ids|)
  {
    if ids != [] {
      assert Tag(ids[0]);
      EncodeBelow(ids[1..]);
    }
  }

  lemma {:induction false} PowerGrows(m: nat, n: nat)
    requires m <= n
    ensures Power(m) <= Power(n)
    decreases n
  {
    if m < n { PowerGrows(m, n - 1); }
  }

  /** Every stack of at most seven tags has a word. */
  lemma SevenFit(ids: seq<nat>)
    requires AllTags(ids) && |ids| <= 7
    ensures Encode(ids) < WORD_LIMIT
  {
    EncodeBelow(ids);
    PowerGrows(|ids|, 7);
    assert Power(7) == 128000_0000;
  }

  /** No stack of nine or more tags has a word. */
  lemma {:induction false} NineDoNotFit(ids: seq<nat>)
    requires AllTags(ids) && |ids| >= 9
    ensures Encode(ids) >= WORD_LIMIT
  {
    EncodeAbove(ids);
    PowerGrows(8, |ids| - 1);
    assert Power(4) == 160000;
    assert Power(8) == 25600000000;
  }

  lemma {:induction false} EncodeAbove(ids: seq<nat>)
    requires AllTags(ids) && ids != []
    ensures Encode(ids) >= Power(|ids| - 1)
  {
    assert ids[0] in ids && Tag(ids[0]);
    if |ids| > 1 { EncodeAbove(ids[1..]); }
  }
}
