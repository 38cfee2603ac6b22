/** 64-bit machine words as natural numbers, with C's bitwise operators
    defined digit by digit.  A proof about a mask never looks at the number:
    it looks at `Bit`, and two words with the same 64 bits are the same word
    (`SameBits`). */
module Words {
  const WORD_BITS: nat := 64

  function Pow2(k: nat): (r: nat)
    ensures r >= 1
  {
    if k == 0 then 1 else 2 * Pow2(k - 1)
  }

  /** All 64 bits set: the value of both BUSY constants. */
  const ALL_ONES: nat := 0xFFFF_FFFF_FFFF_FFFF

  type Word = w: nat | w <= ALL_ONES

  lemma WordBound()
    ensures Pow2(64) == ALL_ONES + 1
  {
    assert Pow2(8) == 0x100;
    assert Pow2(16) == 0x1_0000;
    assert Pow2(24) == 0x100_0000;
    assert Pow2(32) == 0x1_0000_0000;
    assert Pow2(40) == 0x100_0000_0000;
    assert Pow2(48) == 0x1_0000_0000_0000;
    assert Pow2(56) == 0x100_0000_0000_0000;
  }

  /** C's `>>` on an unsigned value: `a` divided by 2^k. */
  function Shr(a: nat, k: nat): nat {
    if k == 0 then a else Shr(a / 2, k - 1)
  }

  /** Bit `i` of `w`, bit 0 the least significant. */
  predicate Bit(w: nat, i: nat) {
    Shr(w, i) % 2 == 1
  }

  function And(a: nat, b: nat): nat
  {
    if a == 0 || b == 0 then 0
    else (if a % 2 == 1 && b % 2 == 1 then 1 else 0) + 2 * And(a / 2, b / 2)
  }

  function Or(a: nat, b: nat): nat
  {
    if a == 0 then b
    else if b == 0 then a
    else (if a % 2 == 1 || b % 2 == 1 then 1 else 0) + 2 * Or(a / 2, b / 2)
  }

  /** C's `~` on a 64-bit word. */
  function Not(a: Word): Word {
    ALL_ONES - a
  }

  /** `a` times 2^k. */
  function Scale(a: nat, k: nat): nat {
    if k == 0 then a else 2 * Scale(a, k - 1)
  }

  /** The k lowest bits of `a`: the remainder of `a` modulo 2^k. */
  function Low(a: nat, k: nat): nat {
    if k == 0 then 0 else a % 2 + 2 * Low(a / 2, k - 1)
  }

  lemma {:induction false} Split(a: nat, k: nat)
    ensures a == Scale(Shr(a, k), k) + Low(a, k)
    ensures Low(a, k) < Pow2(k)
  {
    if k > 0 { Split(a / 2, k - 1); }
  }

  /** C's `<<` on a 64-bit word: bits pushed past bit 63 are lost. */
  function Shl(a: Word, k: nat): Word {
    WordBound();
    Split(Scale(a, k), 64);
    Low(Scale(a, k), 64)
  }

  // ------------------------------------------- multiples of a power of two

  /** Quotient and remainder are determined by the equation of `Split`. */
  lemma {:induction false} Join(q: nat, r: nat, k: nat)
    requires r < Pow2(k)
    ensures Shr(Scale(q, k) + r, k) == q && Low(Scale(q, k) + r, k) == r
  {
    if k > 0 {
      var a := Scale(q, k) + r;
      assert a / 2 == Scale(q, k - 1) + r / 2;
      Join(q, r / 2, k - 1);
    }
  }

  /** `Scale`, `Shr` and `Low` in terms of C's `*`, `/` and `%`. */
  lemma {:induction false} ScaleIsProduct(a: nat, k: nat)
    ensures Scale(a, k) == a * Pow2(k)
  {
    if k > 0 { ScaleIsProduct(a, k - 1); }
  }

  lemma MulMonotone(a: nat, b: nat, d: nat)
    requires a <= b
    ensures a * d <= b * d
  {
  }

  lemma DivisionUnique(w: nat, d: nat, q: nat, r: nat)
    requires d > 0 && w == q * d + r && r < d
    ensures w / d == q && w % d == r
  {
    var q', r' := w / d, w % d;
    assert w == d * q' + r';
    if q < q' {
      MulMonotone(q + 1, q', d);
    } else if q' < q {
      MulMonotone(q' + 1, q, d);
    }
  }

  lemma ShiftsAreDivision(a: nat, k: nat)
    ensures Shr(a, k) == a / Pow2(k)
    ensures Low(a, k) == a % Pow2(k)
  {
    Split(a, k);
    ScaleIsProduct(Shr(a, k), k);
    DivisionUnique(a, Pow2(k), Shr(a, k), Low(a, k));
  }

  lemma {:induction false} ScaleAdd(a: nat, b: nat, k: nat)
    ensures Scale(a + b, k) == Scale(a, k) + Scale(b, k)
  {
    if k > 0 { ScaleAdd(a, b, k - 1); }
  }

  lemma {:induction false} ScaleMonotone(a: nat, b: nat, k: nat)
    ensures a <= b ==> Scale(a, k) <= Scale(b, k)
    ensures a < b ==> Scale(a, k) + Pow2(k) <= Scale(b, k)
  {
    if k > 0 { ScaleMonotone(a, b, k - 1); }
  }

  lemma {:induction false} ScaleScale(a: nat, j: nat, k: nat)
    ensures Scale(Scale(a, j), k) == Scale(a, j + k)
  {
    if k > 0 { ScaleScale(a, j, k - 1); }
  }

  lemma {:induction false} ScaleOne(k: nat)
    ensures Scale(1, k) == Pow2(k)
  {
    if k > 0 { ScaleOne(k - 1); }
  }

  lemma {:induction false} ScalePow2(j: nat, k: nat)
    ensures Scale(Pow2(j), k) == Pow2(j + k)
  {
    if k > 0 { ScalePow2(j, k - 1); }
  }

  /** Eight times, the width of a byte. */
  lemma ScaleThree(a: nat)
    ensures Scale(a, 3) == 8 * a
  {
    assert Scale(a, 1) == 2 * a;
    assert Scale(a, 2) == 4 * a;
  }

  /** Counting from an aligned start changes neither part of the low bits nor
      the alignment of the rest. */
  lemma FromAligned(start: nat, p: nat, k: nat)
    requires Low(start, k) == 0 && start <= p
    ensures Low(p, k) == Low(p - start, k)
    ensures Scale(Shr(p, k), k) == start + Scale(Shr(p - start, k), k)
  {
    var base, q, r := Shr(start, k), Shr(p - start, k), Low(p - start, k);
    Split(start, k);
    Split(p - start, k);
    ScaleAdd(base, q, k);
    Join(base + q, r, k);
    assert p == Scale(base + q, k) + r;
  }

  /** The low bits of the low bits. */
  lemma {:induction false} LowLow(a: nat, j: nat, k: nat)
    requires j <= k
    ensures Low(Low(a, k), j) == Low(a, j)
  {
    if j > 0 {
      assert Low(a, k) / 2 == Low(a / 2, k - 1);
      LowLow(a / 2, j - 1, k - 1);
    }
  }

  lemma MaskBound(c: nat, k: nat)
    ensures Scale(Pow2(c) - 1, k) < Pow2(c + k)
  {
    ScalePow2(c, k);
    ScaleMonotone(Pow2(c) - 1, Pow2(c), k);
  }

  lemma ShrBound(w: nat, a: nat, k: nat)
    requires w < Scale(a, k)
    ensures Shr(w, k) < a
  {
    Split(w, k);
    ScaleMonotone(a, Shr(w, k), k);
  }

  lemma {:induction false} Pow2Monotone(a: nat, b: nat)
    requires a <= b
    ensures Pow2(a) <= Pow2(b)
    ensures a < b ==> 2 * Pow2(a) <= Pow2(b)
    decreases b - a
  {
    if a < b { Pow2Monotone(a + 1, b); }
  }

  lemma {:induction false} ScaleZero(k: nat)
    ensures Scale(0, k) == 0
  {
    if k > 0 { ScaleZero(k - 1); }
  }

  /** Dividing one power of two by another. */
  lemma ShrPow2(a: nat, b: nat)
    ensures b <= a ==> Shr(Pow2(a), b) == Pow2(a - b)
    ensures a < b ==> Shr(Pow2(a), b) == 0
  {
    if b <= a {
      ScalePow2(a - b, b);
      Join(Pow2(a - b), 0, b);
    } else {
      Pow2Monotone(a, b);
      ScaleZero(b);
      Join(0, Pow2(a), b);
    }
  }

  lemma SmallPowers()
    ensures Pow2(0) == 1 && Pow2(1) == 2 && Pow2(2) == 4 && Pow2(3) == 8 && Pow2(4) == 16
    ensures Pow2(5) == 32 && Pow2(6) == 64 && Pow2(7) == 128 && Pow2(16) == 65536
  {
    assert Pow2(3) == 8;
    assert Pow2(5) == 32;
    assert Pow2(10) == 1024;
    assert Pow2(13) == 8192;
  }

  lemma {:induction false} ScaleGrows(a: nat, k: nat)
    ensures a <= Scale(a, k)
  {
    if k > 0 { ScaleGrows(a, k - 1); }
  }

  // ------------------------------------------------------------------ bits

  lemma {:induction false} BitZero(i: nat)
    ensures !Bit(0, i)
  {
    if i > 0 { BitZero(i - 1); }
  }

  /** Extensionality: numbers below 2^k with the same first k bits are equal. */
  lemma {:induction false} SameBits(a: nat, b: nat, k: nat)
    requires a < Pow2(k) && b < Pow2(k)
    requires forall i: nat | i < k :: Bit(a, i) == Bit(b, i)
    ensures a == b
  {
    if k > 0 {
      forall i: nat | i < k - 1
        ensures Bit(a / 2, i) == Bit(b / 2, i)
      {
        assert Bit(a, i + 1) == Bit(b, i + 1);
      }
      SameBits(a / 2, b / 2, k - 1);
      assert Bit(a, 0) == Bit(b, 0);
    }
  }

  lemma {:induction false} HighBitsClear(a: nat, k: nat, i: nat)
    requires a < Pow2(k) && i >= k
    ensures !Bit(a, i)
  {
    if k == 0 {
      BitZero(i);
    } else {
      HighBitsClear(a / 2, k - 1, i - 1);
    }
  }

  lemma {:induction false} BitAnd(a: nat, b: nat, i: nat)
    ensures Bit(And(a, b), i) <==> Bit(a, i) && Bit(b, i)
  {
    if a == 0 || b == 0 {
      BitZero(i);
    } else if i > 0 {
      BitAnd(a / 2, b / 2, i - 1);
      assert And(a, b) / 2 == And(a / 2, b / 2);
    }
  }

  lemma {:induction false} BitOr(a: nat, b: nat, i: nat)
    ensures Bit(Or(a, b), i) <==> Bit(a, i) || Bit(b, i)
  {
    if a == 0 || b == 0 {
      BitZero(i);
    } else if i > 0 {
      BitOr(a / 2, b / 2, i - 1);
      assert Or(a, b) / 2 == Or(a / 2, b / 2);
    }
  }

  lemma {:induction false} AndBound(a: nat, b: nat)
    ensures And(a, b) <= a && And(a, b) <= b
  {
    if a != 0 && b != 0 {
      AndBound(a / 2, b / 2);
    }
  }

  lemma {:induction false} OrBound(a: nat, b: nat, k: nat)
    requires a < Pow2(k) && b < Pow2(k)
    ensures Or(a, b) < Pow2(k)
  {
    if k > 0 {
      OrBound(a / 2, b / 2, k - 1);
    }
  }

  lemma {:induction false} BitComplement(a: nat, k: nat, i: nat)
    requires a < Pow2(k) && i < k
    ensures Bit(Pow2(k) - 1 - a, i) <==> !Bit(a, i)
  {
    var c := Pow2(k) - 1 - a;
    if i > 0 {
      BitComplement(a / 2, k - 1, i - 1);
      assert c / 2 == Pow2(k - 1) - 1 - a / 2;
    }
  }

  lemma BitNot(a: Word, i: nat)
    requires i < 64
    ensures Bit(Not(a), i) <==> !Bit(a, i)
  {
    WordBound();
    BitComplement(a, 64, i);
  }

  /** A power of two is the mask of one bit. */
  lemma {:induction false} BitPow2(k: nat, i: nat)
    ensures Bit(Pow2(k), i) <==> i == k
  {
    if k == 0 {
      if i > 0 { BitZero(i - 1); }
    } else if i > 0 {
      BitPow2(k - 1, i - 1);
    }
  }

  /** 2^k - 1 is the mask of the k lowest bits. */
  lemma {:induction false} BitLowMask(k: nat, i: nat)
    ensures Bit(Pow2(k) - 1, i) <==> i < k
  {
    if k == 0 {
      BitZero(i);
    } else if i > 0 {
      BitLowMask(k - 1, i - 1);
      assert (Pow2(k) - 1) / 2 == Pow2(k - 1) - 1;
    }
  }

  /** `w & (1 << i)` is non-zero exactly when bit i is set. */
  lemma AndOneBit(w: nat, i: nat)
    ensures And(w, Pow2(i)) != 0 <==> Bit(w, i)
  {
    BitAnd(w, Pow2(i), i);
    BitPow2(i, i);
    if !Bit(w, i) {
      AndBound(w, Pow2(i));
      forall j: nat | j < i + 1
        ensures Bit(And(w, Pow2(i)), j) == Bit(0, j)
      {
        BitAnd(w, Pow2(i), j);
        BitPow2(i, j);
        BitZero(j);
      }
      SameBits(And(w, Pow2(i)), 0, i + 1);
    } else {
      BitZero(i);
    }
  }

  /** `w & (2^k - 1)` is the remainder modulo 2^k. */
  lemma {:induction false} AndLowMask(w: nat, k: nat)
    ensures And(w, Pow2(k) - 1) == Low(w, k)
  {
    if k > 0 {
      AndLowMask(w / 2, k - 1);
      assert (Pow2(k) - 1) / 2 == Pow2(k - 1) - 1;
      assert (Pow2(k) - 1) % 2 == 1;
      if w == 0 {
        Split(0, k - 1);
      }
    }
  }

  lemma {:induction false} LowFits(a: nat, k: nat)
    requires a < Pow2(k)
    ensures Low(a, k) == a
  {
    if k > 0 { LowFits(a / 2, k - 1); }
  }

  lemma AndZero(a: nat, b: nat)
    requires a == 0 || b == 0
    ensures And(a, b) == 0
  {
  }

  /** `x & ~(2^k - 1)`, rounding down to a multiple of 2^k. */
  lemma {:induction false} AndNotLow(x: nat, k: nat, n: nat)
    requires x < Pow2(n) && k <= n
    ensures Pow2(k) <= Pow2(n)
    ensures And(x, Pow2(n) - Pow2(k)) == Scale(Shr(x, k), k)
  {
    Pow2Monotone(k, n);
    if k == 0 {
      AndLowMask(x, n);
      LowFits(x, n);
    } else {
      AndNotLow(x / 2, k - 1, n - 1);
      assert (Pow2(n) - Pow2(k)) / 2 == Pow2(n - 1) - Pow2(k - 1);
      assert (Pow2(n) - Pow2(k)) % 2 == 0;
      if x == 0 || Pow2(n) == Pow2(k) {
        AndZero(x, Pow2(n) - Pow2(k));
        AndZero(x / 2, Pow2(n - 1) - Pow2(k - 1));
      }
    }
  }

  lemma Pow2Of32()
    ensures Pow2(32) == 0x1_0000_0000
  {
    assert Pow2(8) == 0x100;
    assert Pow2(16) == 0x1_0000;
    assert Pow2(24) == 0x100_0000;
  }

  /** Shifting left moves every bit up. */
  lemma {:induction false} BitScale(a: nat, k: nat, i: nat)
    ensures Bit(Scale(a, k), i) <==> i >= k && Bit(a, i - k)
  {
    if k > 0 && i > 0 { BitScale(a, k - 1, i - 1); }
  }

  /** A shift that loses no bit. */
  lemma ShlFits(a: Word, k: nat)
    requires Scale(a, k) <= ALL_ONES
    ensures Shl(a, k) == Scale(a, k)
  {
    WordBound();
    LowFits(Scale(a, k), 64);
  }

  /** A one-bit mask built by a shift. */
  lemma ShlOne(k: nat)
    requires k < 64
    ensures Shl(1, k) == Pow2(k) <= ALL_ONES
  {
    WordBound();
    Pow2Monotone(k, 64);
    ScaleOne(k);
    ShlFits(1, k);
  }

  /** The loop `for (m = 1; m; m <<= 1)` visits the 64 one-bit masks and stops:
      shifting the mask of bit 63 gives zero. */
  lemma MaskStep(i: nat)
    requires i < 64
    ensures Pow2(i) <= ALL_ONES
    ensures Shl(Pow2(i), 1) == if i == 63 then 0 else Pow2(i + 1)
  {
    WordBound();
    Pow2Monotone(i, 63);
    ScalePow2(i, 1);
    if i < 63 {
      Pow2Monotone(i + 1, 63);
      ShlFits(Pow2(i), 1);
    } else {
      ScaleOne(64);
      Join(1, 0, 64);
    }
  }

  predicate AllSet(w: nat) {
    forall i: nat | i < 64 :: Bit(w, i)
  }

  predicate AllClear(w: nat) {
    forall i: nat | i < 64 :: !Bit(w, i)
  }

  lemma AllOnesBits(w: Word)
    ensures w == ALL_ONES <==> AllSet(w)
  {
    WordBound();
    var full := Pow2(64) - 1;
    forall i: nat | i < 64
      ensures Bit(full, i)
    {
      BitLowMask(64, i);
    }
    if AllSet(w) { SameBits(w, full, 64); }
  }

  lemma ZeroBits(w: Word)
    ensures w == 0 <==> AllClear(w)
  {
    WordBound();
    forall i: nat | i < 64
      ensures !Bit(0, i)
    {
      BitZero(i);
    }
    if AllClear(w) { SameBits(w, 0, 64); }
  }

  /** `w |= 1 << c` sets bit c and no other. */
  lemma SetBit(w: Word, c: nat)
    requires c < 64
    ensures Pow2(c) <= ALL_ONES
    ensures Or(w, Pow2(c)) <= ALL_ONES
    ensures forall i: nat | i < 64 :: Bit(Or(w, Pow2(c)), i) == (i == c || Bit(w, i))
  {
    WordBound();
    Pow2Monotone(c, 63);
    OrBound(w, Pow2(c), 64);
    forall i: nat | i < 64
      ensures Bit(Or(w, Pow2(c)), i) == (i == c || Bit(w, i))
    {
      BitOr(w, Pow2(c), i);
      BitPow2(c, i);
    }
  }

  /** `w &= ~(1 << c)` clears bit c and no other. */
  lemma ClearBit(w: Word, c: nat)
    requires c < 64
    ensures Pow2(c) <= ALL_ONES
    ensures And(w, Not(Pow2(c))) <= ALL_ONES
    ensures forall i: nat | i < 64 :: Bit(And(w, Not(Pow2(c))), i) == (i != c && Bit(w, i))
  {
    WordBound();
    Pow2Monotone(c, 63);
    AndBound(w, Not(Pow2(c)));
    forall i: nat | i < 64
      ensures Bit(And(w, Not(Pow2(c))), i) == (i != c && Bit(w, i))
    {
      BitAnd(w, Not(Pow2(c)), i);
      BitNot(Pow2(c), i);
      BitPow2(c, i);
    }
  }

  lemma Pow2Of63()
    ensures Pow2(63) == 0x8000_0000_0000_0000
  {
    WordBound();
  }

  lemma {:induction false} OrIsSum(k: nat, n: nat)
    requires k < Pow2(n)
    ensures Or(k, Pow2(n)) == k + Pow2(n)
  {
    if n > 0 && k > 0 {
      OrIsSum(k / 2, n - 1);
      assert Pow2(n) % 2 == 0 && Pow2(n) / 2 == Pow2(n - 1);
    }
  }

  /** `k | 2^63` with k below 2^63 is a sum, and masking the top bit off
      gives k back. */
  lemma TopBit(k: nat, top: Word)
    requires top == 0x8000_0000_0000_0000 && k < top
    ensures Or(k, top) == k + top <= ALL_ONES
    ensures And(k + top, Not(top)) == k
    ensures And(k, Not(top)) == k
  {
    Pow2Of63();
    OrIsSum(k, 63);
    ScaleOne(63);
    Join(1, k, 63);
    AndLowMask(k + top, 63);
    AndLowMask(k, 63);
    LowFits(k, 63);
  }
}
