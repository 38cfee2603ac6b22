/** The loops of the allocator that only look: bit scans, word scans and the
    size-class computation. */
module Scans {
  import opened Words
  import opened PageTable
  import opened Allocator
  import opened Descriptors
  import opened Bitmaps
  import opened Effects
  import opened Usage

  /** The mask on the i-th round. */
  function ScanMask(i: nat): nat {
    if i < 64 then Pow2(i) else 0
  }

  lemma ScanStep(i: nat)
    requires i < 64
    ensures ScanMask(i) <= ALL_ONES && Shl(ScanMask(i), 1) == ScanMask(i + 1)
  {
    MaskStep(i);
  }

  /** `for (m = 1, i = 0; m; m <<= 1, i++) { if (w & m) continue; ... }` */
  method LowestClearBit(w: Word) returns (m: Word, i: nat)
    requires w != BUSY
    ensures i < 64 && m == Pow2(i)
    ensures !Bit(w, i) && forall j: nat | j < i :: Bit(w, j)
  {
    m, i := 1, 0;
    while m != 0
      invariant i <= 64 && m == ScanMask(i)
      invariant forall j: nat | j < i :: Bit(w, j)
      decreases 64 - i
    {
      AndOneBit(w, i);
      ScanStep(i);
      if And(w, m) == 0 {
        return;
      }
      m, i := Shl(m, 1), i + 1;
    }
    AllOnesBits(w);
    assert false;
  }

  /** The mask on the i-th round of the scan over the upper half. */
  function BigScanMask(i: nat): nat {
    if i < 32 then Pow2(MAP_SHIFT + i) else 0
  }

  lemma BigScanStart()
    ensures MAP_FIRST == BigScanMask(0)
  {
    Pow2Of32();
  }

  lemma {:induction false} AndSwap(a: nat, b: nat)
    ensures And(a, b) == And(b, a)
  {
    if a != 0 && b != 0 { AndSwap(a / 2, b / 2); }
  }

  /** `m & mask` says whether chunk i exists. */
  lemma MaskBit(mask: Word, chunks: nat, i: nat, m: Word)
    requires chunks <= 32 && i <= chunks && mask == BigMask(chunks)
    requires m == if i < 32 then Pow2(MAP_SHIFT + i) else 0
    ensures And(m, mask) != 0 <==> i < chunks
  {
    if i < 32 {
      AndSwap(m, mask);
      AndOneBit(mask, MAP_SHIFT + i);
      BigMaskBits(chunks, MAP_SHIFT + i);
    }
  }

  lemma BigScan(slab: Word, mask: Word, shift: nat, used: seq<bool>, m: Word, i: nat)
    requires BigMap(slab, shift, used) && mask == BigMask(|used|) && i <= |used| && m == BigScanMask(i)
    ensures And(m, mask) != 0 <==> i < |used|
    ensures i < |used| ==> (And(slab, m) != 0 <==> used[i]) && Shl(m, 1) == BigScanMask(i + 1)
  {
    MaskBit(mask, |used|, i, m);
    if i < |used| {
      AndOneBit(slab, MAP_SHIFT + i);
      MaskStep(MAP_SHIFT + i);
    }
  }

  lemma FirstClearIs(used: seq<bool>, c: nat)
    requires c < |used| && !used[c] && forall i | 0 <= i < c :: used[i]
    ensures !Full(used) && FirstClear(used) == c
  {
    var f := FirstClear(used);
  }

  /** The same scan over the map in the upper half of a BIG descriptor, which
      ends at the first mask outside the page's map. */
  method LowestClearBigBit(slab: Word, mask: Word, shift: nat, ghost used: seq<bool>) returns (m: Word, i: nat)
    requires BigMap(slab, shift, used) && mask == BigMask(|used|) && !Full(used)
    ensures i < |used| && m == BigScanMask(i) && i == FirstClear(used)
  {
    BigScanStart();
    m, i := MAP_FIRST, 0;
    BigScan(slab, mask, shift, used, m, i);
    while And(m, mask) != 0
      invariant i <= |used| && m == BigScanMask(i)
      invariant And(m, mask) != 0 <==> i < |used|
      invariant forall c | 0 <= c < i :: used[c]
      decreases |used| - i
    {
      BigScan(slab, mask, shift, used, m, i);
      if And(slab, m) == 0 {
        FirstClearIs(used, i);
        return;
      }
      m, i := Shl(m, 1), i + 1;
      BigScan(slab, mask, shift, used, m, i);
    }
    assert false;
  }

  /** First word from `from` on that has a clear bit, or `map`. */
  method NextNotBusy(w: seq<Word>, from: nat, map_: nat) returns (n: nat)
    requires from <= map_ <= |w|
    ensures from <= n <= map_
    ensures n < map_ ==> w[n] != BUSY
    ensures forall k | from <= k < n :: w[k] == BUSY
  {
    n := from;
    while n < map_
      invariant from <= n <= map_
      invariant forall k | from <= k < n :: w[k] == BUSY
    {
      if w[n] != BUSY {
        return;
      }
      n := n + 1;
    }
  }

  /** Is any word from `from` on non-zero? */
  method AnyNonZero(w: seq<Word>, from: nat, map_: nat) returns (b: bool)
    requires from <= map_ <= |w|
    ensures b <==> exists k :: from <= k < map_ && w[k] != 0
  {
    var n := from;
    while n < map_
      invariant from <= n <= map_
      invariant forall k | from <= k < n :: w[k] == 0
    {
      if w[n] != 0 {
        return true;
      }
      n := n + 1;
    }
    return false;
  }

  lemma {:induction false} ClassUnique(g: Geo, size: nat, s: nat, shift: nat)
    requires size < g.MaxSize() && s <= shift < g.pageShift
    requires size <= Pow2(shift) && (shift == s || Pow2(shift - 1) < size)
    ensures ClassFrom(g, size, s) == shift
    decreases shift - s
  {
    if s < shift {
      Pow2Monotone(s, shift - 1);
      ClassUnique(g, size, s + 1, shift);
    }
  }

  lemma Halves(a: nat)
    ensures Shr(a, 1) == a / 2
  {
  }

  lemma {:induction false} ShrStep(a: nat, k: nat)
    ensures Shr(a, k + 1) == Shr(a, k) / 2
  {
    if k > 0 { ShrStep(a / 2, k - 1); }
  }

  lemma AtLeast(a: nat, k: nat)
    requires Shr(a, k) != 0
    ensures Pow2(k) <= a
  {
    Split(a, k);
    ScaleMonotone(1, Shr(a, k), k);
    ScaleOne(k);
  }

  /** When the loop stops, 2^(shift-1) < size <= 2^shift, and the shift is that
      of a class. */
  lemma ClassFound(g: Geo, size: nat, shift: nat)
    requires g.ParamsOk() && Pow2(g.minShift) < size < g.MaxSize()
    requires 1 <= shift && Shr(size - 1, shift) == 0 && Pow2(shift - 1) <= size - 1
    ensures size <= Pow2(shift) && g.IsClass(shift)
  {
    Split(size - 1, shift);
    ScaleZero(shift);
    if shift < g.minShift { Pow2Monotone(shift, g.minShift); }
    if shift >= g.pageShift { Pow2Monotone(g.pageShift - 1, shift - 1); }
  }

  /** The shift and slot of a request below MaxSize: the least class that holds
      it, found by counting the bits of size - 1. */
  method SizeClass(g: Geo, size: nat) returns (shift: nat, slot: nat)
    requires g.ParamsOk() && size < g.MaxSize()
    ensures shift == ClassFor(g, size) && slot == shift - g.minShift
    ensures g.IsClass(shift) && slot < g.pageShift - g.minShift
    ensures size <= Pow2(shift)
    ensures shift == g.minShift || Pow2(shift - 1) < size
  {
    if size > Pow2(g.minShift) {
      shift := 1;
      var s := (size - 1) / 2;
      Halves(size - 1);
      while s != 0
        invariant shift >= 1 && s == Shr(size - 1, shift)
        invariant Pow2(shift - 1) <= size - 1
        decreases s
      {
        ShrStep(size - 1, shift);
        AtLeast(size - 1, shift);
        shift, s := shift + 1, s / 2;
      }
      ClassFound(g, size, shift);
      slot := shift - g.minShift;
    } else {
      shift, slot := g.minShift, 0;
    }
    ClassUnique(g, size, g.minShift, shift);
  }

  lemma ExactScanned(slab: Word, used: seq<bool>, i: nat)
    requires ExactMap(slab, used) && i < 64 && !Bit(slab, i) && forall j: nat | j < i :: Bit(slab, j)
    ensures !Full(used) && FirstClear(used) == i
  {
    forall c | 0 <= c < i
      ensures used[c]
    {
      assert Bit(slab, c);
    }
    FirstClearIs(used, i);
  }

  /** `((1 << n) - 1) << MAP_SHIFT` loses no bit. */
  lemma BigMaskFits(chunks: nat)
    requires chunks <= 32
    ensures Pow2(chunks) - 1 <= ALL_ONES
    ensures Shl(Pow2(chunks) - 1, MAP_SHIFT) == BigMask(chunks)
  {
    WordBound();
    BigMaskBound(chunks);
    Pow2Monotone(chunks, 64);
    ShlFits(Pow2(chunks) - 1, MAP_SHIFT);
  }

  lemma BigScanBit(i: nat)
    requires i < 32
    ensures BigScanMask(i) == Pow2(32 + i)
  {
  }

  lemma BigFreshWord(shift: nat, used: seq<bool>)
    requires shift < 16 && 0 < |used| <= 32 && forall c | 0 <= c < |used| :: used[c] == (c == 0)
    ensures Or(MAP_FIRST, shift) <= ALL_ONES && BigMap(Or(MAP_FIRST, shift), shift, used)
  {
    Pow2Of32();
    BigFresh(shift, used);
  }

  lemma FreshWordFits(n: nat)
    requires n <= 16
    ensures 0 < Scale(2, n) <= 131072
  {
    SmallPowers();
    ScalePow2(1, n);
    Pow2Monotone(n, 16);
  }

  /** The bitmap of the smallest class still fits in a page. */
  lemma BitmapFits(g: Geo, shift: nat)
    requires g.ParamsOk() && g.IsClass(shift)
    ensures g.Chunks(shift) / 64 <= g.PageSize() / 8
  {
    Pow2Monotone(g.pageShift - shift, g.pageShift);
  }

  /** The code's `(size >> P) + (size % pagesize ? 1 : 0)` is the rounded-up
      number of pages. */
  lemma RoundUpSplit(g: Geo, size: nat)
    ensures PagesFor(g, size) == Shr(size, g.pageShift) + if Low(size, g.pageShift) != 0 then 1 else 0
  {
    var q, r := Shr(size, g.pageShift), Low(size, g.pageShift);
    Split(size, g.pageShift);
    if r == 0 {
      Join(q, g.PageSize() - 1, g.pageShift);
    } else {
      ScaleAdd(q, 1, g.pageShift);
      ScaleOne(g.pageShift);
      Join(q + 1, r - 1, g.pageShift);
    }
  }

  // ----------------------------------------------- SMALL bitmaps, as scanned

  /** What a scan of the words, then of one word, has found. */
  lemma ScanFinds(w: seq<Word>, used: seq<bool>, n: nat, i: nat)
    requires SmallMap(w, used) && 64 * n < |used| && i < 64
    requires forall k | 0 <= k < n :: k < |w| && w[k] == BUSY
    requires n < |w| && !Bit(w[n], i) && forall j: nat | j < i :: Bit(w[n], j)
    ensures 64 * n + i < |used| && !Full(used) && FirstClear(used) == 64 * n + i
  {
    forall c | 0 <= c < 64 * n + i
      ensures used[c]
    {
      if c < 64 * n {
        SmallWordBusy(w, used, c / 64);
      } else {
        assert Bit(w[n], c - 64 * n);
      }
    }
    assert Bit(w[n], i) == used[64 * n + i];
    FirstClearIs(used, 64 * n + i);
  }

  /** `bitmap[c / 64] & (1 << (c & 63))` tests chunk c. */
  lemma SmallTest(w: seq<Word>, used: seq<bool>, c: nat)
    requires SmallMap(w, used) && c < |used|
    ensures c / 64 < |w|
    ensures And(w[c / 64], Pow2(c % 64)) != 0 <==> used[c]
  {
    AndOneBit(w[c / 64], c % 64);
    assert Bit(w[c / 64], c % 64) == used[64 * (c / 64) + c % 64];
  }

  lemma ExactTest(slab: Word, used: seq<bool>, c: nat)
    requires ExactMap(slab, used) && c < |used|
    ensures And(slab, Pow2(c)) != 0 <==> used[c]
  {
    AndOneBit(slab, c);
    assert Bit(slab, c) == used[c];
  }

  /** All words BUSY means the page is full. */
  lemma AllWordsBusy(w: seq<Word>, used: seq<bool>)
    requires SmallMap(w, used)
    requires forall k | 0 <= 64 * k < |used| && k < |w| :: w[k] == BUSY
    ensures Full(used)
  {
    forall c | 0 <= c < |used|
      ensures used[c]
    {
      SmallWordBusy(w, used, c / 64);
    }
  }

  /** A word that is not BUSY means it is not. */
  lemma SomeWordNotBusy(w: seq<Word>, used: seq<bool>, k: nat)
    requires SmallMap(w, used) && 64 * k < |used| && k < |w| && w[k] != BUSY
    ensures !Full(used)
  {
    SmallWordBusy(w, used, k);
  }

  /** The two tests of `free` on the bitmap: some chunk but the n reserved ones
      is in use iff the first word or a later word says so. */
  lemma WordsEmpty(w: seq<Word>, used: seq<bool>, n: nat)
    requires SmallMap(w, used) && 64 <= |used| && n < 64
    ensures 0 < |w| && Pow2(n) - 1 <= ALL_ONES
    ensures Empty(used, n) <==>
              && And(w[0], Not(Pow2(n) - 1)) == 0
              && !exists k :: 1 <= k < |used| / 64 && w[k] != 0
  {
    SmallFirstWord(w, used, n);
    forall k: nat | 1 <= k < |used| / 64
      ensures w[k] == 0 <==> forall c | 64 * k <= c < 64 * k + 64 :: !used[c]
    {
      SmallWordClear(w, used, k);
    }
    if And(w[0], Not(Pow2(n) - 1)) == 0 && !exists k :: 1 <= k < |used| / 64 && w[k] != 0 {
      forall c | n <= c < |used|
        ensures !used[c]
      {
        if c >= 64 {
          assert w[c / 64] == 0;
          assert 64 * (c / 64) <= c < 64 * (c / 64) + 64;
        }
      }
    }
  }

  // ------------------------------------------------------------- addresses

  /** The shifts that build a chunk's address lose no bit. */
  lemma AddressFits(g: Geo, page: nat, shift: nat, c: nat)
    requires g.Ok() && page < g.pages && g.IsClass(shift) && c < g.Chunks(shift)
    ensures page <= ALL_ONES && c <= ALL_ONES
    ensures Shl(page, g.pageShift) == Scale(page, g.pageShift)
    ensures Shl(c, shift) == Scale(c, shift)
    ensures Address(g, page, Scale(c, shift)) <= ALL_ONES
  {
    PageInPool(g, page);
    ChunkInPage(g, shift, c);
    PagesFit(g);
    ScaleGrows(c, shift);
    ShlFits(page, g.pageShift);
    ShlFits(c, shift);
  }

  lemma PageAddressFits(g: Geo, page: nat)
    requires g.Ok() && page < g.pages
    ensures page <= ALL_ONES
    ensures Shl(page, g.pageShift) == Scale(page, g.pageShift)
    ensures Address(g, page, 0) <= ALL_ONES
  {
    PageInPool(g, page);
    PagesFit(g);
    ShlFits(page, g.pageShift);
  }

  /** A SMALL chunk's offset is built from its word and its bit. */
  lemma SmallOffset(g: Geo, shift: nat, n: nat, i: nat)
    requires g.Ok() && g.IsClass(shift) && 64 * n + i < g.Chunks(shift)
    ensures 64 * n <= ALL_ONES && i <= ALL_ONES
    ensures Shl(64 * n, shift) + Shl(i, shift) == Scale(64 * n + i, shift)
  {
    AddressFits(g, 0, shift, 64 * n);
    AddressFits(g, 0, shift, i);
    ScaleAdd(64 * n, i, shift);
  }

  lemma PageAddressDecodes(g: Geo, page: nat)
    ensures Address(g, page, 0) >= g.start && Shr(Address(g, page, 0) - g.start, g.pageShift) == page
  {
    AddressDecodes(g, page, 0);
  }

  /** Low and high part of a pointer: `start` is page-aligned. */
  lemma PointerSplit(g: Geo, p: nat)
    requires g.Ok() && g.start <= p
    ensures Low(p, g.pageShift) == OffsetOf(g, p)
    ensures Scale(Shr(p, g.pageShift), g.pageShift) == Address(g, PageOf(g, p), 0)
  {
    FromAligned(g.start, p, g.pageShift);
  }

  lemma PageMask(g: Geo)
    requires g.ParamsOk()
    ensures 1 <= g.PageSize() <= ALL_ONES
    ensures Not(g.PageSize() - 1) == Pow2(64) - Pow2(g.pageShift) && ALL_ONES < Pow2(64)
  {
    WordBound();
    Pow2Monotone(g.pageShift, 64);
  }

  /** How `free` takes a pointer apart: masks on the pointer itself give the
      offset in the page and the page's start. */
  lemma PointerParts(g: Geo, p: nat)
    requires g.Ok() && g.start <= p <= g.end
    ensures g.PageSize() - 1 <= ALL_ONES
    ensures And(p, g.PageSize() - 1) == OffsetOf(g, p)
    ensures And(p, Not(g.PageSize() - 1)) == Address(g, PageOf(g, p), 0)
  {
    PointerSplit(g, p);
    AndLowMask(p, g.pageShift);
    PageMask(g);
    AndNotLow(p, g.pageShift, 64);
  }

  /** The alignment test `p & (size - 1)`. */
  lemma PointerAlign(g: Geo, p: nat, s: nat)
    requires g.Ok() && g.start <= p && s <= g.pageShift
    ensures And(p, Pow2(s) - 1) == Low(OffsetOf(g, p), s)
  {
    PointerSplit(g, p);
    AndLowMask(p, s);
    LowLow(p, s, g.pageShift);
  }

  /** Chunk n is bit n & 63 of word n / 64. */
  lemma ChunkBit(n: nat)
    ensures And(n, WORD_BITS - 1) == n % 64
  {
    SmallPowers();
    AndLowMask(n, 6);
    ShiftsAreDivision(n, 6);
  }

  lemma WordShift(shift: nat)
    requires shift < 16
    ensures And(shift, SHIFT_MASK) == shift
  {
    SmallPowers();
    AndLowMask(shift, 4);
    LowFits(shift, 4);
  }

  /** The chunk a pointer names in a page of the given class, and whether it
      points at the start of one. */
  method DecodeChunk(g: Geo, p: nat, shift: nat) returns (c: nat, aligned: bool)
    requires g.Ok() && g.start <= p <= g.end && g.IsClass(shift)
    ensures c == Shr(OffsetOf(g, p), shift) < g.Chunks(shift)
    ensures aligned <==> Low(OffsetOf(g, p), shift) == 0
  {
    PointerParts(g, p);
    PointerAlign(g, p, shift);
    AddressParts(g, p);
    ChunkOfOffset(g, shift, OffsetOf(g, p));
    c := Shr(And(p, g.PageSize() - 1), shift);
    aligned := And(p, Pow2(shift) - 1) == 0;
  }

  /** The page whose first words a pointer's bitmap lives in. */
  method BitmapPage(g: Geo, p: nat) returns (page: nat)
    requires g.Ok() && g.start <= p <= g.end
    ensures page == PageOf(g, p)
  {
    PointerParts(g, p);
    PageAddressDecodes(g, PageOf(g, p));
    page := Shr(And(p, Not(g.PageSize() - 1)) - g.start, g.pageShift);
  }

  // ----------------------------------------------------- counting for stat

  /** `for (m = 1; m; m <<= 1) if (w & m) used += obj_size;` over one word. */
  method WordUsage(w: Word, shift: nat, before: nat, ghost used: seq<bool>, ghost base: nat) returns (bytes: nat)
    requires base + 64 <= |used| && forall j: nat {:trigger Bit(w, j)} | j < 64 :: Bit(w, j) == used[base + j]
    requires before == Scale(InUse(used, base), shift)
    ensures bytes == Scale(InUse(used, base + 64), shift)
  {
    bytes := before;
    var m := 1;
    ghost var i := 0;
    while m != 0
      invariant i <= 64 && m == ScanMask(i)
      invariant bytes == Scale(InUse(used, base + i), shift)
      decreases 64 - i
    {
      AndOneBit(w, i);
      ScanStep(i);
      assert Bit(w, i) == used[base + i];
      CountStep(used, base + i, shift);
      if And(w, m) != 0 {
        bytes := bytes + Pow2(shift);
      }
      m := Shl(m, 1);
      i := i + 1;
    }
  }

  /** The SMALL case: every word of the bitmap. */
  method SmallUsage(w: seq<Word>, map_: nat, shift: nat, ghost used: seq<bool>) returns (bytes: nat)
    requires SmallMap(w, used) && |used| == 64 * map_
    ensures bytes == Scale(InUse(used, |used|), shift)
  {
    ScaleZero(shift);
    bytes := 0;
    var j := 0;
    while j < map_
      invariant 0 <= j <= map_
      invariant bytes == Scale(InUse(used, 64 * j), shift)
    {
      bytes := WordUsage(w[j], shift, bytes, used, 64 * j);
      j := j + 1;
    }
  }

  lemma {:induction false} AllInUse(used: seq<bool>, k: nat)
    requires k <= |used| && Full(used)
    ensures InUse(used, k) == k
  {
    if k > 0 { AllInUse(used, k - 1); }
  }

  /** The EXACT case: a full page is counted at once. */
  method ExactUsage(slab: Word, shift: nat, ghost used: seq<bool>) returns (bytes: nat)
    requires ExactMap(slab, used)
    ensures bytes == Scale(InUse(used, |used|), shift)
  {
    ScaleZero(shift);
    ExactBusy(slab, used);
    if slab == BUSY {
      AllInUse(used, 64);
      ScaleIsProduct(64, shift);
      bytes := WORD_BITS * Pow2(shift);
    } else {
      bytes := WordUsage(slab, shift, 0, used, 0);
    }
  }

  /** The BIG case: the masks that `mask` lets through. */
  method BigUsage(slab: Word, mask: Word, shift: nat, ghost used: seq<bool>) returns (bytes: nat)
    requires BigMap(slab, shift, used) && mask == BigMask(|used|)
    ensures bytes == Scale(InUse(used, |used|), shift)
  {
    BigScanStart();
    ScaleZero(shift);
    bytes := 0;
    var m := MAP_FIRST;
    ghost var i := 0;
    BigScan(slab, mask, shift, used, m, i);
    while And(m, mask) != 0
      invariant i <= |used| && m == BigScanMask(i)
      invariant And(m, mask) != 0 <==> i < |used|
      invariant bytes == Scale(InUse(used, i), shift)
      decreases |used| - i
    {
      BigScan(slab, mask, shift, used, m, i);
      CountStep(used, i, shift);
      if And(slab, m) != 0 {
        bytes := bytes + Pow2(shift);
      }
      m := Shl(m, 1);
      i := i + 1;
      BigScan(slab, mask, shift, used, m, i);
    }
  }
}
