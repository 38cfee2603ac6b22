/** The three bitmap encodings: setting or clearing a bit sets or clears a
    chunk, and the tests the code makes on whole words say "page full" and
    "page empty". */
module Bitmaps {
  import opened Words
  import opened PageTable
  import opened Descriptors

  // ----------------------------------------------------------------- SMALL

  lemma SmallSet(w: seq<Word>, used: seq<bool>, n: nat, i: nat)
    requires SmallMap(w, used) && i < 64 && 64 * n + i < |used|
    ensures n < |w| && Pow2(i) <= ALL_ONES && Or(w[n], Pow2(i)) <= ALL_ONES
    ensures SmallMap(w[n := Or(w[n], Pow2(i))], used[64 * n + i := true])
  {
    assert Bit(w[n], i) == used[64 * n + i];
    SetBit(w[n], i);
    var w', used' := w[n := Or(w[n], Pow2(i))], used[64 * n + i := true];
    forall k: nat, j: nat | k < |w'| && 64 * k < |used'| && j < 64
      ensures Bit(w'[k], j) == used'[64 * k + j]
    {
      assert Bit(w[k], j) == used[64 * k + j];
    }
  }

  lemma SmallClear(w: seq<Word>, used: seq<bool>, n: nat, i: nat)
    requires SmallMap(w, used) && i < 64 && 64 * n + i < |used|
    ensures n < |w| && Pow2(i) <= ALL_ONES && And(w[n], Not(Pow2(i))) <= ALL_ONES
    ensures SmallMap(w[n := And(w[n], Not(Pow2(i)))], used[64 * n + i := false])
  {
    assert Bit(w[n], i) == used[64 * n + i];
    ClearBit(w[n], i);
    var w', used' := w[n := And(w[n], Not(Pow2(i)))], used[64 * n + i := false];
    forall k: nat, j: nat | k < |w'| && 64 * k < |used'| && j < 64
      ensures Bit(w'[k], j) == used'[64 * k + j]
    {
      assert Bit(w[k], j) == used[64 * k + j];
    }
  }

  /** Word n is BUSY when its 64 chunks are all in use. */
  lemma SmallWordBusy(w: seq<Word>, used: seq<bool>, n: nat)
    requires SmallMap(w, used) && 64 * n + 64 <= |used|
    ensures n < |w|
    ensures w[n] == BUSY <==> forall c | 64 * n <= c < 64 * n + 64 :: used[c]
  {
    AllOnesBits(w[n]);
    if forall c | 64 * n <= c < 64 * n + 64 :: used[c] {
      assert forall j: nat | j < 64 :: Bit(w[n], j) == used[64 * n + j];
      assert AllSet(w[n]);
    }
    if AllSet(w[n]) {
      forall c | 64 * n <= c < 64 * n + 64
        ensures used[c]
      {
        assert Bit(w[n], c - 64 * n);
      }
    }
  }

  lemma SmallWordClear(w: seq<Word>, used: seq<bool>, n: nat)
    requires SmallMap(w, used) && 64 * n + 64 <= |used|
    ensures n < |w|
    ensures w[n] == 0 <==> forall c | 64 * n <= c < 64 * n + 64 :: !used[c]
  {
    ZeroBits(w[n]);
    if forall c | 64 * n <= c < 64 * n + 64 :: !used[c] {
      assert forall j: nat | j < 64 :: Bit(w[n], j) == used[64 * n + j];
      assert AllClear(w[n]);
    }
    if AllClear(w[n]) {
      forall c | 64 * n <= c < 64 * n + 64
        ensures !used[c]
      {
        assert !Bit(w[n], c - 64 * n);
      }
    }
  }

  lemma LowMaskFits(n: nat)
    requires n < 64
    ensures Pow2(n) - 1 <= ALL_ONES
  {
    WordBound();
    Pow2Monotone(n, 63);
  }

  lemma BitAboveMask(a: Word, n: nat, j: nat)
    requires n < 64 && j < 64 && Pow2(n) - 1 <= ALL_ONES
    ensures Bit(And(a, Not(Pow2(n) - 1)), j) == (Bit(a, j) && j >= n)
  {
    BitAnd(a, Not(Pow2(n) - 1), j);
    BitNot(Pow2(n) - 1, j);
    BitLowMask(n, j);
  }

  /** `bitmap[0] & ~((1 << n) - 1)`: is any of the first 64 chunks but the n
      reserved ones in use? */
  lemma SmallFirstWord(w: seq<Word>, used: seq<bool>, n: nat)
    requires SmallMap(w, used) && 64 <= |used| && n < 64
    ensures 0 < |w| && Pow2(n) - 1 <= ALL_ONES
    ensures And(w[0], Not(Pow2(n) - 1)) == 0 <==> forall c | n <= c < 64 :: !used[c]
  {
    LowMaskFits(n);
    var x := And(w[0], Not(Pow2(n) - 1));
    AndBound(w[0], Not(Pow2(n) - 1));
    ZeroBits(x);
    forall j: nat | j < 64
      ensures Bit(x, j) == (j >= n && used[j])
    {
      assert Bit(w[0], j) == used[64 * 0 + j];
      BitAboveMask(w[0], n, j);
    }
    if forall c | n <= c < 64 :: !used[c] {
      assert AllClear(x);
    }
    if AllClear(x) {
      forall c | n <= c < 64
        ensures !used[c]
      {
        assert !Bit(x, c);
      }
    }
  }

  /** `(2 << n) - 1` and zeros after it: the bitmap of a new SMALL page. */
  lemma SmallFresh(w: seq<Word>, used: seq<bool>, n: nat)
    requires n < 63 && 64 <= |used| <= 64 * |w| && |used| % 64 == 0
    requires forall c | 0 <= c < |used| :: used[c] == (c <= n)
    requires w[0] == Scale(2, n) - 1 && forall i | 1 <= i < |used| / 64 :: w[i] == 0
    ensures SmallMap(w, used)
  {
    assert Pow2(1) == 2;
    ScalePow2(1, n);
    forall k: nat, j: nat | k < |w| && 64 * k < |used| && j < 64
      ensures Bit(w[k], j) == used[64 * k + j]
    {
      if k == 0 {
        BitLowMask(n + 1, j);
      } else {
        BitZero(j);
      }
    }
  }

  // ----------------------------------------------------------------- EXACT

  lemma ExactSet(slab: Word, used: seq<bool>, c: nat)
    requires ExactMap(slab, used) && c < 64
    ensures Pow2(c) <= ALL_ONES && Or(slab, Pow2(c)) <= ALL_ONES
    ensures ExactMap(Or(slab, Pow2(c)), used[c := true])
  {
    SetBit(slab, c);
  }

  lemma ExactClear(slab: Word, used: seq<bool>, c: nat)
    requires ExactMap(slab, used) && c < 64
    ensures Pow2(c) <= ALL_ONES && And(slab, Not(Pow2(c))) <= ALL_ONES
    ensures ExactMap(And(slab, Not(Pow2(c))), used[c := false])
  {
    ClearBit(slab, c);
  }

  lemma ExactBusy(slab: Word, used: seq<bool>)
    requires ExactMap(slab, used)
    ensures slab == BUSY <==> Full(used)
    ensures slab == 0 <==> Empty(used, 0)
  {
    AllOnesBits(slab);
    ZeroBits(slab);
    if AllSet(slab) {
      forall c | 0 <= c < 64 ensures used[c] { assert Bit(slab, c); }
    }
    if AllClear(slab) {
      forall c | 0 <= c < 64 ensures !used[c] { assert !Bit(slab, c); }
    }
    if Full(used) {
      forall j: nat | j < 64 ensures Bit(slab, j) { assert used[j]; }
      assert AllSet(slab);
    }
    if Empty(used, 0) {
      forall j: nat | j < 64 ensures !Bit(slab, j) { assert !used[j]; }
      assert AllClear(slab);
    }
  }

  lemma ExactFresh(used: seq<bool>)
    requires |used| == 64 && forall c | 0 <= c < 64 :: used[c] == (c == 0)
    ensures ExactMap(1, used)
  {
    forall j: nat | j < 64
      ensures Bit(1, j) == used[j]
    {
      BitPow2(0, j);
    }
  }

  // ------------------------------------------------------------------- BIG

  lemma BigSet(slab: Word, shift: nat, used: seq<bool>, c: nat)
    requires BigMap(slab, shift, used) && c < |used|
    ensures Pow2(32 + c) <= ALL_ONES && Or(slab, Pow2(32 + c)) <= ALL_ONES
    ensures BigMap(Or(slab, Pow2(32 + c)), shift, used[c := true])
  {
    SetBit(slab, 32 + c);
  }

  lemma BigClear(slab: Word, shift: nat, used: seq<bool>, c: nat)
    requires BigMap(slab, shift, used) && c < |used|
    ensures Pow2(32 + c) <= ALL_ONES && And(slab, Not(Pow2(32 + c))) <= ALL_ONES
    ensures BigMap(And(slab, Not(Pow2(32 + c))), shift, used[c := false])
  {
    ClearBit(slab, 32 + c);
  }

  /** `slab & SHIFT_MASK` recovers the shift. */
  lemma BigShift(slab: Word, shift: nat, used: seq<bool>)
    requires BigMap(slab, shift, used) && shift < 16
    ensures And(slab, SHIFT_MASK) == shift
  {
    SmallPowers();
    assert SHIFT_MASK == Pow2(4) - 1;
    AndBound(slab, SHIFT_MASK);
    forall j: nat | j < 4
      ensures Bit(And(slab, SHIFT_MASK), j) == Bit(shift, j)
    {
      BitAnd(slab, SHIFT_MASK, j);
      BitLowMask(4, j);
    }
    SameBits(And(slab, SHIFT_MASK), shift, 4);
  }

  /** The mask of a page of C chunks, `((1 << C) - 1) << MAP_SHIFT`. */
  function BigMask(chunks: nat): nat {
    Scale(Pow2(chunks) - 1, MAP_SHIFT)
  }

  lemma BigMaskBound(chunks: nat)
    requires chunks <= 32
    ensures BigMask(chunks) <= ALL_ONES
  {
    WordBound();
    MaskBound(chunks, 32);
    Pow2Monotone(chunks + 32, 64);
  }

  lemma BigMaskBits(chunks: nat, j: nat)
    ensures Bit(BigMask(chunks), j) <==> 32 <= j < 32 + chunks
  {
    BitScale(Pow2(chunks) - 1, 32, j);
    if j >= 32 { BitLowMask(chunks, j - 32); }
  }

  lemma MapMaskValue()
    ensures BigMask(32) == MAP_MASK
  {
    WordBound();
    Pow2Of32();
    var a := Pow2(32) - 1;
    ScalePow2(32, 32);
    ScaleAdd(a, 1, 32);
    ScaleOne(32);
  }

  lemma MapMaskBits(j: nat)
    requires j < 64
    ensures Bit(MAP_MASK, j) <==> 32 <= j
  {
    BigMaskBits(32, j);
    MapMaskValue();
  }

  lemma BigPart(slab: Word, shift: nat, used: seq<bool>, j: nat)
    requires BigMap(slab, shift, used) && j < 64
    ensures And(slab, MAP_MASK) <= ALL_ONES
    ensures Bit(And(slab, MAP_MASK), j) == (32 <= j < 32 + |used| && used[j - 32])
  {
    AndBound(slab, MAP_MASK);
    BitAnd(slab, MAP_MASK, j);
    MapMaskBits(j);
  }

  lemma BigFull(slab: Word, shift: nat, used: seq<bool>)
    requires BigMap(slab, shift, used)
    ensures And(slab, MAP_MASK) == BigMask(|used|) <==> Full(used)
  {
    WordBound();
    var x, mask := And(slab, MAP_MASK), BigMask(|used|);
    BigMaskBound(|used|);
    AndBound(slab, MAP_MASK);
    forall j: nat | j < 64
      ensures Bit(x, j) == (32 <= j < 32 + |used| && used[j - 32])
      ensures Bit(mask, j) == (32 <= j < 32 + |used|)
    {
      BigPart(slab, shift, used, j);
      BigMaskBits(|used|, j);
    }
    if Full(used) {
      SameBits(x, mask, 64);
    } else {
      var c :| 0 <= c < |used| && !used[c];
      assert !Bit(x, 32 + c) && Bit(mask, 32 + c);
    }
  }

  lemma BigEmpty(slab: Word, shift: nat, used: seq<bool>)
    requires BigMap(slab, shift, used)
    ensures And(slab, MAP_MASK) == 0 <==> Empty(used, 0)
  {
    var x := And(slab, MAP_MASK);
    AndBound(slab, MAP_MASK);
    ZeroBits(x);
    forall j: nat | j < 64
      ensures Bit(x, j) == (32 <= j < 32 + |used| && used[j - 32])
    {
      BigPart(slab, shift, used, j);
    }
    if Empty(used, 0) { assert AllClear(x); }
    if AllClear(x) {
      forall c | 0 <= c < |used| ensures !used[c] { assert !Bit(x, 32 + c); }
    }
  }

  /** `(1 << MAP_SHIFT) | shift`: the word of a new BIG page. */
  lemma BigFresh(shift: nat, used: seq<bool>)
    requires shift < 16 && 0 < |used| <= 32 && forall c | 0 <= c < |used| :: used[c] == (c == 0)
    ensures Pow2(32) <= ALL_ONES && Or(Pow2(32), shift) <= ALL_ONES
    ensures BigMap(Or(Pow2(32), shift), shift, used)
  {
    WordBound();
    SmallPowers();
    Pow2Monotone(32, 63);
    Pow2Monotone(4, 32);
    OrBound(Pow2(32), shift, 64);
    forall j: nat | j < 64
      ensures Bit(Or(Pow2(32), shift), j) == if j < 32 then Bit(shift, j) else j - 32 < |used| && used[j - 32]
    {
      BitOr(Pow2(32), shift, j);
      BitPow2(32, j);
      if j >= 32 { HighBitsClear(shift, 32, j); }
    }
  }
}
