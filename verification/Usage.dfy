/** What `ncx_slab_stat` counts, defined page by page, and what the counts mean
    for the page table and for the caller's blocks. */
module Usage {
  import opened Words
  import opened PageTable
  import opened Allocator
  import opened SlabHeap

  /** The five fates of a page. */
  datatype Fate = FreePage | BlockPage | SmallPage | ExactPage | BigPage

  function FateOf(g: Geo, k: Kind): Fate
    requires g.ParamsOk()
  {
    match k
    case Free(_) => FreePage
    case FreePart(_) => FreePage
    case Block(_) => BlockPage
    case BlockPart(_) => BlockPage
    case Slab(s, _) => if s < g.ExactShift() then SmallPage else if s == g.ExactShift() then ExactPage else BigPage
  }

  /** Chunks in use among the first k. */
  function InUse(used: seq<bool>, k: nat): (n: nat)
    requires k <= |used|
    ensures n <= k
  {
    if k == 0 then 0 else InUse(used, k - 1) + if used[k - 1] then 1 else 0
  }

  /** Bytes a page accounts for: a block counts at its first page. */
  function BytesOf(g: Geo, k: Kind): nat {
    match k
    case Block(len) => Scale(len, g.pageShift)
    case Slab(s, used) => Scale(InUse(used, |used|), s)
    case _ => 0
  }

  /** Pages with a given fate among the first i. */
  function PageCount(g: Geo, kinds: seq<Kind>, i: nat, f: Fate): nat
    requires g.ParamsOk() && i <= |kinds|
  {
    if i == 0 then 0 else PageCount(g, kinds, i - 1, f) + if FateOf(g, kinds[i - 1]) == f then 1 else 0
  }

  /** Bytes in use in pages with a given fate among the first i. */
  function ByteCount(g: Geo, kinds: seq<Kind>, i: nat, f: Fate): nat
    requires g.ParamsOk() && i <= |kinds|
  {
    if i == 0 then 0
    else ByteCount(g, kinds, i - 1, f) + if FateOf(g, kinds[i - 1]) == f then BytesOf(g, kinds[i - 1]) else 0
  }

  /** Longest free run among the first i pages. */
  function LongestFree(kinds: seq<Kind>, i: nat): nat
    requires i <= |kinds|
  {
    if i == 0 then 0
    else
      var m := LongestFree(kinds, i - 1);
      if kinds[i - 1].Free? && kinds[i - 1].len > m then kinds[i - 1].len else m
  }

  // ------------------------------------------------ the walk skips run by run

  /** Counting across a whole run at once. */
  lemma {:induction false} AcrossRun(g: Geo, kinds: seq<Kind>, i: nat, k: nat, f: Fate)
    requires g.ParamsOk() && Tiled(g, kinds)
    requires i < |kinds| && (kinds[i].Free? || kinds[i].Block?) && 1 <= k <= Span(kinds[i])
    ensures i + k <= |kinds|
    ensures PageCount(g, kinds, i + k, f) == PageCount(g, kinds, i, f) + if FateOf(g, kinds[i]) == f then k else 0
    ensures ByteCount(g, kinds, i + k, f) == ByteCount(g, kinds, i, f) + if FateOf(g, kinds[i]) == f then BytesOf(g, kinds[i]) else 0
    ensures LongestFree(kinds, i + k) == LongestFree(kinds, i + 1)
  {
    assert KindOk(g, kinds, i);
    if k > 1 {
      AcrossRun(g, kinds, i, k - 1, f);
      assert kinds[i + k - 1].FreePart? || kinds[i + k - 1].BlockPart?;
    }
  }

  /** A page the walk stands on is the first page of a run, and so is the page
      after that run. */
  predicate AtHead(kinds: seq<Kind>, i: nat) {
    i <= |kinds| && (i < |kinds| ==> Head(kinds[i]))
  }

  lemma NextHead(g: Geo, kinds: seq<Kind>, i: nat)
    requires g.ParamsOk() && Tiled(g, kinds) && i < |kinds| && AtHead(kinds, i)
    ensures i + Span(kinds[i]) <= |kinds| && AtHead(kinds, i + Span(kinds[i]))
  {
    assert forall h {:trigger kinds[h]} | 0 <= h < |kinds| :: KindOk(g, kinds, h);
  }

  /** The pages among the first i that start a run, in order. */
  function HeadsBelow(kinds: seq<Kind>, i: nat): seq<int>
    requires i <= |kinds|
  {
    if i == 0 then [] else HeadsBelow(kinds, i - 1) + if Head(kinds[i - 1]) then [i - 1] else []
  }

  /** A run holds no other head. */
  lemma {:induction false} OneHeadPerRun(g: Geo, kinds: seq<Kind>, i: nat, k: nat)
    requires g.ParamsOk() && Tiled(g, kinds)
    requires i < |kinds| && Head(kinds[i]) && 1 <= k <= Span(kinds[i])
    ensures i + k <= |kinds| && HeadsBelow(kinds, i + k) == HeadsBelow(kinds, i) + [i]
  {
    assert KindOk(g, kinds, i);
    if k > 1 {
      OneHeadPerRun(g, kinds, i, k - 1);
      assert !Head(kinds[i + k - 1]);
    }
  }

  /** The list of heads is increasing and complete. */
  lemma {:induction false} HeadsAre(kinds: seq<Kind>, i: nat)
    requires i <= |kinds|
    ensures forall j :: j in HeadsBelow(kinds, i) <==> 0 <= j < i && Head(kinds[j])
    ensures forall a, b | 0 <= a < b < |HeadsBelow(kinds, i)| :: HeadsBelow(kinds, i)[a] < HeadsBelow(kinds, i)[b]
  {
    if i > 0 {
      HeadsAre(kinds, i - 1);
      var l := HeadsBelow(kinds, i - 1);
      assert forall a | 0 <= a < |l| :: l[a] in l;
    }
  }

  // ----------------------------------------------------------- what it means

  /** Every page has exactly one fate. */
  lemma {:induction false} FatesPartition(g: Geo, kinds: seq<Kind>, i: nat)
    requires g.ParamsOk() && i <= |kinds|
    ensures PageCount(g, kinds, i, SmallPage) + PageCount(g, kinds, i, ExactPage) + PageCount(g, kinds, i, BigPage)
            + PageCount(g, kinds, i, BlockPage) + PageCount(g, kinds, i, FreePage) == i
  {
    if i > 0 { FatesPartition(g, kinds, i - 1); }
  }

  lemma {:induction false} LongestFreeIs(kinds: seq<Kind>, i: nat)
    requires i <= |kinds|
    ensures forall j | 0 <= j < i && kinds[j].Free? :: kinds[j].len <= LongestFree(kinds, i)
    ensures LongestFree(kinds, i) > 0 ==> exists j :: 0 <= j < i && kinds[j].Free? && kinds[j].len == LongestFree(kinds, i)
  {
    if i > 0 { LongestFreeIs(kinds, i - 1); }
  }

  /** `alloc_pages(k)` succeeds exactly when k does not exceed the
      `max_free_pages` that `stat` reports. */
  lemma RunFitsIff(g: Geo, t: Table, k: nat)
    requires g.ParamsOk() && Shape(g, t) && k >= 1
    ensures AllocRun(g, t, k).1.Got? <==> k <= LongestFree(t.kinds, |t.kinds|)
  {
    FreeListIsFree(g, t);
    var free := t.rings[0];
    var j := FirstFit(t.kinds, free, k);
    LongestFreeIs(t.kinds, |t.kinds|);
    if k <= LongestFree(t.kinds, |t.kinds|) {
      var h :| 0 <= h < |t.kinds| && t.kinds[h].Free? && t.kinds[h].len == LongestFree(t.kinds, |t.kinds|);
      assert RingOk(g, t.kinds, free, 0);
      assert RingOf(g, t.kinds[h]) == 0;
      var i :| 0 <= i < |free| && free[i] == h;
      assert t.kinds[free[i]].len >= k;
    }
  }

  /** A chunk request fails exactly when its class list is empty and no page is
      free. */
  lemma ChunkFitsIff(g: Geo, t: Table, shift: nat)
    requires g.ParamsOk() && Inv(g, t) && g.IsClass(shift)
    ensures AllocChunk(g, t, shift).1.Failed? <==>
              t.rings[1 + shift - g.minShift] == [] && forall i | 0 <= i < |t.kinds| :: !t.kinds[i].Free? && !t.kinds[i].FreePart?
  {
    if t.rings[1 + shift - g.minShift] == [] {
      RunFitsIff(g, t, 1);
      LongestFreeIs(t.kinds, |t.kinds|);
      forall i | 0 <= i < |t.kinds| && (t.kinds[i].Free? || t.kinds[i].FreePart?)
        ensures LongestFree(t.kinds, |t.kinds|) >= 1
      {
        assert KindOk(g, t.kinds, i);
        if t.kinds[i].FreePart? { assert KindOk(g, t.kinds, t.kinds[i].head); }
      }
    }
  }

  /** When a request cannot be served: whole pages when no free run is long
      enough, a chunk when its class list is empty and no page is free. */
  predicate OutOfMemory(g: Geo, t: Table, size: nat)
    requires g.ParamsOk() && |t.rings| == g.RingCount()
  {
    if size >= g.MaxSize() then PagesFor(g, size) > LongestFree(t.kinds, |t.kinds|)
    else
      && t.rings[1 + ClassFor(g, size) - g.minShift] == []
      && forall i | 0 <= i < |t.kinds| :: !t.kinds[i].Free? && !t.kinds[i].FreePart?
  }

  lemma AllocFailsIff(g: Geo, t: Table, size: nat)
    requires g.ParamsOk() && Inv(g, t)
    ensures Alloc(g, t, size).1.Failed? <==> OutOfMemory(g, t, size)
  {
    if size >= g.MaxSize() {
      RoundUpPositive(g, size);
      RunFitsIff(g, t, PagesFor(g, size));
    } else {
      ChunkFitsIff(g, t, ClassFor(g, size));
    }
  }

  lemma {:induction false} AllFreeCount(g: Geo, kinds: seq<Kind>, i: nat)
    requires g.ParamsOk() && i <= |kinds|
    requires forall j | 0 <= j < i :: kinds[j].Free? || kinds[j].FreePart?
    ensures PageCount(g, kinds, i, FreePage) == i
  {
    if i > 0 { AllFreeCount(g, kinds, i - 1); }
  }

  /** With no live block, every page is counted free. */
  lemma AllPagesFree(g: Geo, t: Table)
    requires g.Ok() && Inv(g, t) && Live(g, t) == map[]
    ensures PageCount(g, t.kinds, |t.kinds|, FreePage) == g.pages
  {
    NothingLeaks(g, t);
    AllFreeCount(g, t.kinds, |t.kinds|);
  }

  /** After any run of a fresh pool that ends with no live block, every page is
      counted free again. */
  lemma NoLeakOverRuns(g: Geo, ops: seq<Op>)
    requires g.Ok() && Inv(g, InitialTable(g)) && RunOk(g, InitialTable(g), ops)
    requires Live(g, Run(g, InitialTable(g), ops).0) == map[]
    ensures var u := Run(g, InitialTable(g), ops).0;
            |u.kinds| == g.pages && PageCount(g, u.kinds, |u.kinds|, FreePage) == g.pages
  {
    AllPagesFree(g, Run(g, InitialTable(g), ops).0);
  }

  // ------------------------------------------- bytes in use and live blocks

  /** Sizes of the blocks whose address lies in [lo, hi). */
  ghost function BytesIn(live: map<int, nat>, lo: int, hi: int): nat
    decreases hi - lo
  {
    if hi <= lo then 0
    else BytesIn(live, lo, hi - 1) + if hi - 1 in live then live[hi - 1] else 0
  }

  lemma {:induction false} BytesSplit(live: map<int, nat>, lo: int, mid: int, hi: int)
    requires lo <= mid <= hi
    ensures BytesIn(live, lo, hi) == BytesIn(live, lo, mid) + BytesIn(live, mid, hi)
    decreases hi - mid
  {
    if mid < hi { BytesSplit(live, lo, mid, hi - 1); }
  }

  lemma {:induction false} BytesAtStart(live: map<int, nat>, lo: int, hi: int)
    requires lo < hi && forall p | lo < p < hi :: p !in live
    ensures BytesIn(live, lo, hi) == if lo in live then live[lo] else 0
    decreases hi - lo
  {
    if lo + 1 < hi { BytesAtStart(live, lo, hi - 1); }
  }

  /** Bytes of a page that hold its own bitmap. */
  function ReservedBytes(g: Geo, k: Kind): nat
    requires g.ParamsOk()
  {
    if k.Slab? && g.IsClass(k.shift) then Scale(g.Reserved(k.shift), k.shift) else 0
  }

  function TotalBytes(g: Geo, kinds: seq<Kind>, i: nat): nat
    requires i <= |kinds|
  {
    if i == 0 then 0 else TotalBytes(g, kinds, i - 1) + BytesOf(g, kinds[i - 1])
  }

  function TotalReserved(g: Geo, kinds: seq<Kind>, i: nat): nat
    requires g.ParamsOk() && i <= |kinds|
  {
    if i == 0 then 0 else TotalReserved(g, kinds, i - 1) + ReservedBytes(g, kinds[i - 1])
  }

  lemma {:induction false} BytesPartition(g: Geo, kinds: seq<Kind>, i: nat)
    requires g.ParamsOk() && i <= |kinds|
    ensures ByteCount(g, kinds, i, SmallPage) + ByteCount(g, kinds, i, ExactPage) + ByteCount(g, kinds, i, BigPage)
            + ByteCount(g, kinds, i, BlockPage) == TotalBytes(g, kinds, i)
  {
    if i > 0 { BytesPartition(g, kinds, i - 1); }
  }

  /** The live map restricted to the page of kind k at address `at`. */
  ghost predicate PageView(g: Geo, live: map<int, nat>, at: nat, k: Kind)
    requires g.ParamsOk()
  {
    forall off: nat {:trigger LiveIn(g, k, off)} | off < g.PageSize() ::
      && (at + off in live <==> LiveIn(g, k, off))
      && (LiveIn(g, k, off) ==> live[at + off] == SizeIn(g, k))
  }

  lemma PageViews(g: Geo, t: Table, i: nat)
    requires g.Ok() && Tiled(g, t.kinds) && i < |t.kinds|
    ensures PageView(g, Live(g, t), Address(g, i, 0), t.kinds[i])
  {
    var at := Address(g, i, 0);
    forall off: nat | off < g.PageSize()
      ensures at + off in Live(g, t) <==> LiveIn(g, t.kinds[i], off)
      ensures LiveIn(g, t.kinds[i], off) ==> Live(g, t)[at + off] == SizeIn(g, t.kinds[i])
    {
      AddressDecodes(g, i, off);
      if LiveIn(g, t.kinds[i], off) { LiveInPool(g, t, Address(g, i, off)); }
    }
  }

  predicate SlabOk(g: Geo, s: nat, used: seq<bool>) {
    && g.ParamsOk() && g.IsClass(s) && |used| == g.Chunks(s)
    && forall c | 0 <= c < g.Reserved(s) && c < |used| :: used[c]
  }

  /** No block starts strictly inside a chunk. */
  lemma InsideChunk(g: Geo, live: map<int, nat>, at: nat, s: nat, used: seq<bool>, c: nat, p: nat)
    requires SlabOk(g, s, used) && PageView(g, live, at, Slab(s, used)) && c < |used|
    requires at + Scale(c, s) < p < at + Scale(c, s) + Pow2(s)
    ensures p !in live
  {
    ChunkInPage(g, s, c);
    Join(c, p - at - Scale(c, s), s);
    assert !LiveIn(g, Slab(s, used), p - at);
  }

  /** A block starts at a chunk exactly when the chunk is in use and not
      reserved. */
  lemma AtChunk(g: Geo, live: map<int, nat>, at: nat, s: nat, used: seq<bool>, c: nat)
    requires SlabOk(g, s, used) && PageView(g, live, at, Slab(s, used)) && c < |used|
    ensures var lo := at + Scale(c, s);
            && (lo in live <==> used[c] && c >= g.Reserved(s))
            && (lo in live ==> live[lo] == Pow2(s))
  {
    ChunkInPage(g, s, c);
    assert LiveIn(g, Slab(s, used), Scale(c, s)) <==> used[c] && c >= g.Reserved(s);
  }

  /** The bytes of one chunk slot. */
  lemma ChunkBytes(g: Geo, live: map<int, nat>, at: nat, s: nat, used: seq<bool>, c: nat)
    requires SlabOk(g, s, used) && PageView(g, live, at, Slab(s, used)) && c < |used|
    ensures var lo := at + Scale(c, s);
            BytesIn(live, lo, lo + Pow2(s)) == if used[c] && c >= g.Reserved(s) then Pow2(s) else 0
  {
    var lo := at + Scale(c, s);
    forall p | lo < p < lo + Pow2(s)
      ensures p !in live
    {
      InsideChunk(g, live, at, s, used, c, p);
    }
    AtChunk(g, live, at, s, used, c);
    BytesAtStart(live, lo, lo + Pow2(s));
  }

  /** Each chunk slot holds its own size if it is live, nothing otherwise. */
  ghost predicate SlotBytes(live: map<int, nat>, at: nat, s: nat, used: seq<bool>, reserved: nat) {
    && (forall c: nat {:trigger used[c]} | c < |used| ::
          BytesIn(live, at + Scale(c, s), at + Scale(c, s) + Pow2(s)) == if used[c] && c >= reserved then Pow2(s) else 0)
    && forall c: nat | c < reserved && c < |used| :: used[c]
  }

  function Least(a: nat, b: nat): nat {
    if a < b then a else b
  }

  lemma NextMultiple(a: nat, s: nat)
    ensures Scale(a + 1, s) == Scale(a, s) + Pow2(s)
  {
    ScaleAdd(a, 1, s);
    ScaleOne(s);
  }

  lemma NextChunk(live: map<int, nat>, at: nat, c: nat, s: nat)
    ensures var lo := at + Scale(c, s);
            BytesIn(live, at, at + Scale(c + 1, s)) == BytesIn(live, at, lo) + BytesIn(live, lo, lo + Pow2(s))
  {
    NextMultiple(c, s);
    BytesSplit(live, at, at + Scale(c, s), at + Scale(c + 1, s));
  }

  /** Counting one chunk more. */
  lemma CountStep(used: seq<bool>, i: nat, shift: nat)
    requires i < |used|
    ensures Scale(InUse(used, i + 1), shift) == Scale(InUse(used, i), shift) + if used[i] then Pow2(shift) else 0
  {
    NextMultiple(InUse(used, i), shift);
  }

  lemma LeastStep(c: nat, n: nat, s: nat)
    ensures Scale(Least(c + 1, n), s) == Scale(Least(c, n), s) + if c < n then Pow2(s) else 0
  {
    NextMultiple(c, s);
  }

  /** The chunk slots of a page, one by one. */
  lemma {:induction false} SlabBytes(live: map<int, nat>, at: nat, s: nat, used: seq<bool>, reserved: nat, c: nat)
    requires SlotBytes(live, at, s, used, reserved) && c <= |used|
    ensures BytesIn(live, at, at + Scale(c, s)) + Scale(Least(c, reserved), s) == Scale(InUse(used, c), s)
  {
    if c == 0 {
      ScaleZero(s);
    } else {
      SlabBytes(live, at, s, used, reserved, c - 1);
      assert used[c - 1] == used[c - 1];
      NextChunk(live, at, c - 1, s);
      CountStep(used, c - 1, s);
      LeastStep(c - 1, reserved, s);
    }
  }

  lemma BlockBytes(g: Geo, live: map<int, nat>, at: nat, k: Kind)
    requires g.ParamsOk() && PageView(g, live, at, k) && !k.Slab?
    ensures BytesIn(live, at, at + g.PageSize()) == BytesOf(g, k)
  {
    forall p | at < p < at + g.PageSize()
      ensures p !in live
    {
      assert !LiveIn(g, k, p - at);
    }
    BytesAtStart(live, at, at + g.PageSize());
    assert LiveIn(g, k, 0) <==> k.Block?;
  }

  lemma SlotsOf(g: Geo, live: map<int, nat>, at: nat, s: nat, used: seq<bool>)
    requires SlabOk(g, s, used) && PageView(g, live, at, Slab(s, used))
    ensures SlotBytes(live, at, s, used, g.Reserved(s))
  {
    forall c: nat {:trigger used[c]} | c < |used|
      ensures BytesIn(live, at + Scale(c, s), at + Scale(c, s) + Pow2(s))
              == if used[c] && c >= g.Reserved(s) then Pow2(s) else 0
    {
      ChunkBytes(g, live, at, s, used, c);
    }
  }

  lemma SlabPageBytes(g: Geo, live: map<int, nat>, at: nat, s: nat, used: seq<bool>)
    requires SlabOk(g, s, used) && PageView(g, live, at, Slab(s, used))
    ensures BytesIn(live, at, at + g.PageSize()) + Scale(g.Reserved(s), s) == Scale(InUse(used, |used|), s)
  {
    SlotsOf(g, live, at, s, used);
    ReservedBounds(g, s);
    SlabBytes(live, at, s, used, g.Reserved(s), |used|);
    ScalePow2(g.pageShift - s, s);
  }

  lemma KindBytes(g: Geo, kinds: seq<Kind>, i: nat, live: map<int, nat>, at: nat)
    requires g.ParamsOk() && Tiled(g, kinds) && i < |kinds| && PageView(g, live, at, kinds[i])
    ensures BytesIn(live, at, at + g.PageSize()) + ReservedBytes(g, kinds[i]) == BytesOf(g, kinds[i])
  {
    assert KindOk(g, kinds, i);
    if kinds[i].Slab? {
      SlabPageBytes(g, live, at, kinds[i].shift, kinds[i].used);
    } else {
      BlockBytes(g, live, at, kinds[i]);
    }
  }

  lemma PageBytes(g: Geo, t: Table, i: nat)
    requires g.Ok() && Tiled(g, t.kinds) && i < |t.kinds|
    ensures Address(g, i, 0) <= Address(g, i + 1, 0)
    ensures BytesIn(Live(g, t), Address(g, i, 0), Address(g, i + 1, 0)) + ReservedBytes(g, t.kinds[i]) == BytesOf(g, t.kinds[i])
  {
    RunEnd(g, i, 1);
    PageViews(g, t, i);
    KindBytes(g, t.kinds, i, Live(g, t), Address(g, i, 0));
  }

  /** The bytes counted as used are the rounded sizes of the live blocks plus
      the chunks that SMALL pages keep for their bitmaps. */
  lemma {:induction false} UsedIsLive(g: Geo, t: Table, i: nat)
    requires g.Ok() && Tiled(g, t.kinds) && i <= |t.kinds|
    ensures g.start <= Address(g, i, 0)
    ensures TotalBytes(g, t.kinds, i) == BytesIn(Live(g, t), g.start, Address(g, i, 0)) + TotalReserved(g, t.kinds, i)
  {
    ScaleZero(g.pageShift);
    if i > 0 {
      UsedIsLive(g, t, i - 1);
      PageBytes(g, t, i - 1);
      BytesSplit(Live(g, t), g.start, Address(g, i - 1, 0), Address(g, i, 0));
    }
  }

  // ------------------------------------------------------------ the report

  /** ncx_slab_stat_t; `bPage` and so on are bytes, `pPage` and so on pages. */
  datatype Stat = Stat(poolSize: nat, usedSize: nat, usedPct: nat, pages: nat, freePage: nat,
                       pSmall: nat, pExact: nat, pBig: nat, pPage: nat,
                       bSmall: nat, bExact: nat, bBig: nat, bPage: nat, maxFreePages: nat)

  /** `stat->used_size * 100 / stat->pool_size` in 64-bit arithmetic. */
  function UsedPct(used: nat, pool: nat): nat
    requires pool > 0
  {
    (used * 100) % (ALL_ONES + 1) / pool
  }

  /** The counters after the walk has passed the first i pages. */
  predicate Counted(g: Geo, kinds: seq<Kind>, i: nat, s: Stat)
    requires g.ParamsOk()
  {
    && i <= |kinds|
    && s.freePage == PageCount(g, kinds, i, FreePage)
    && s.pSmall == PageCount(g, kinds, i, SmallPage)
    && s.pExact == PageCount(g, kinds, i, ExactPage)
    && s.pBig == PageCount(g, kinds, i, BigPage)
    && s.pPage == PageCount(g, kinds, i, BlockPage)
    && s.bSmall == ByteCount(g, kinds, i, SmallPage)
    && s.bExact == ByteCount(g, kinds, i, ExactPage)
    && s.bBig == ByteCount(g, kinds, i, BigPage)
    && s.bPage == ByteCount(g, kinds, i, BlockPage)
    && s.usedSize == TotalBytes(g, kinds, i)
    && s.maxFreePages == LongestFree(kinds, i)
  }

  /** One page or run further. */
  function Tally(g: Geo, s: Stat, k: Kind): Stat
    requires g.ParamsOk()
  {
    var b := BytesOf(g, k);
    match FateOf(g, k)
    case FreePage => s.(freePage := s.freePage + Span(k),
                        maxFreePages := if Span(k) > s.maxFreePages then Span(k) else s.maxFreePages)
    case BlockPage => s.(usedSize := s.usedSize + b, bPage := s.bPage + b, pPage := s.pPage + Span(k))
    case SmallPage => s.(usedSize := s.usedSize + b, bSmall := s.bSmall + b, pSmall := s.pSmall + 1)
    case ExactPage => s.(usedSize := s.usedSize + b, bExact := s.bExact + b, pExact := s.pExact + 1)
    case BigPage => s.(usedSize := s.usedSize + b, bBig := s.bBig + b, pBig := s.pBig + 1)
  }

  lemma {:induction false} RunBytes(g: Geo, kinds: seq<Kind>, i: nat, k: nat)
    requires g.ParamsOk() && Tiled(g, kinds)
    requires i < |kinds| && (kinds[i].Free? || kinds[i].Block?) && 1 <= k <= Span(kinds[i])
    ensures i + k <= |kinds|
    ensures TotalBytes(g, kinds, i + k) == TotalBytes(g, kinds, i) + BytesOf(g, kinds[i])
  {
    assert KindOk(g, kinds, i);
    if k > 1 {
      RunBytes(g, kinds, i, k - 1);
      assert kinds[i + k - 1].FreePart? || kinds[i + k - 1].BlockPart?;
    }
  }

  /** The first page of a run accounts for the whole run. */
  lemma TallyCounts(g: Geo, kinds: seq<Kind>, i: nat, s: Stat)
    requires g.ParamsOk() && Tiled(g, kinds) && i < |kinds| && AtHead(kinds, i) && Counted(g, kinds, i, s)
    ensures i + Span(kinds[i]) <= |kinds| && AtHead(kinds, i + Span(kinds[i]))
    ensures Counted(g, kinds, i + Span(kinds[i]), Tally(g, s, kinds[i]))
  {
    NextHead(g, kinds, i);
    assert KindOk(g, kinds, i);
    if !kinds[i].Slab? {
      var k := Span(kinds[i]);
      forall f
        ensures PageCount(g, kinds, i + k, f) == PageCount(g, kinds, i, f) + if FateOf(g, kinds[i]) == f then k else 0
        ensures ByteCount(g, kinds, i + k, f) == ByteCount(g, kinds, i, f) + if FateOf(g, kinds[i]) == f then BytesOf(g, kinds[i]) else 0
      {
        AcrossRun(g, kinds, i, k, f);
      }
      AcrossRun(g, kinds, i, k, FreePage);
      RunBytes(g, kinds, i, k);
    }
  }

  /** What the report tells: the five page counts cover the pool, the bytes in
      use are the live blocks plus the reserved bitmap chunks, and the longest
      free run decides which page requests succeed. */
  lemma ReportMeaning(g: Geo, t: Table, s: Stat)
    requires g.Ok() && Inv(g, t) && Counted(g, t.kinds, |t.kinds|, s)
    ensures s.pSmall + s.pExact + s.pBig + s.pPage + s.freePage == g.pages
    ensures s.usedSize == s.bSmall + s.bExact + s.bBig + s.bPage
    ensures g.start <= Address(g, g.pages, 0)
    ensures s.usedSize == BytesIn(Live(g, t), g.start, Address(g, g.pages, 0)) + TotalReserved(g, t.kinds, g.pages)
    ensures forall k | k >= 1 :: AllocRun(g, t, k).1.Got? <==> k <= s.maxFreePages
    ensures Live(g, t) == map[] ==> s.freePage == g.pages
  {
    FatesPartition(g, t.kinds, |t.kinds|);
    BytesPartition(g, t.kinds, |t.kinds|);
    UsedIsLive(g, t, |t.kinds|);
    forall k | k >= 1
      ensures AllocRun(g, t, k).1.Got? <==> k <= s.maxFreePages
    {
      RunFitsIff(g, t, k);
    }
    if Live(g, t) == map[] { AllPagesFree(g, t); }
  }

  lemma {:induction false} BytesGrow(kinds: seq<Kind>, g: Geo, i: nat, j: nat)
    requires i <= j <= |kinds|
    ensures TotalBytes(g, kinds, i) <= TotalBytes(g, kinds, j)
    decreases j
  {
    if i < j { BytesGrow(kinds, g, i, j - 1); }
  }

  lemma StartsWithHead(g: Geo, kinds: seq<Kind>)
    requires g.ParamsOk() && Tiled(g, kinds)
    ensures AtHead(kinds, 0)
  {
    if |kinds| > 0 { assert KindOk(g, kinds, 0); }
  }

  /** A run accounts for no more bytes than it has. */
  lemma RunBytesFit(g: Geo, kinds: seq<Kind>, i: nat)
    requires g.ParamsOk() && Tiled(g, kinds) && i < |kinds|
    ensures BytesOf(g, kinds[i]) <= Scale(Span(kinds[i]), g.pageShift)
  {
    assert KindOk(g, kinds, i);
    if kinds[i].Slab? {
      var s, n := kinds[i].shift, |kinds[i].used|;
      ScaleMonotone(InUse(kinds[i].used, n), n, s);
      ScalePow2(g.pageShift - s, s);
      ScaleOne(g.pageShift);
    }
  }

  /** If the runs before page i fit in their pages, all runs do. */
  lemma {:induction false} UsedFits(g: Geo, kinds: seq<Kind>, i: nat)
    requires g.ParamsOk() && Tiled(g, kinds) && AtHead(kinds, i)
    requires TotalBytes(g, kinds, i) <= Scale(i, g.pageShift)
    ensures TotalBytes(g, kinds, |kinds|) <= Scale(|kinds|, g.pageShift)
    decreases |kinds| - i
  {
    if i < |kinds| {
      var k := Span(kinds[i]);
      assert KindOk(g, kinds, i);
      NextHead(g, kinds, i);
      if !kinds[i].Slab? { RunBytes(g, kinds, i, k); }
      RunBytesFit(g, kinds, i);
      ScaleAdd(i, k, g.pageShift);
      UsedFits(g, kinds, i + k);
    }
  }

  lemma PagesReach(g: Geo)
    requires g.Ok()
    ensures g.start + Scale(g.pages, g.pageShift) <= g.end && g.pages <= Scale(g.pages, g.pageShift)
  {
    ScaleGrows(g.pages, g.pageShift);
  }

  /** What a slab page reserves covers a bit per chunk, and is nothing where the
      bits fit the descriptor. */
  lemma ReservedBytesCover(g: Geo, kinds: seq<Kind>, i: nat)
    requires g.ParamsOk() && Tiled(g, kinds) && i < |kinds| && kinds[i].Slab?
    ensures |kinds[i].used| <= 64 ==> ReservedBytes(g, kinds[i]) == 0
    ensures |kinds[i].used| > 64 ==> |kinds[i].used| <= 8 * ReservedBytes(g, kinds[i])
  {
    assert KindOk(g, kinds, i);
    ReservedIs(g, kinds[i].shift);
    ScaleZero(kinds[i].shift);
  }

  lemma {:induction false} AllInUseIff(used: seq<bool>, n: nat)
    requires n <= |used|
    ensures InUse(used, n) == n <==> forall c | 0 <= c < n :: used[c]
  {
    if n > 0 { AllInUseIff(used, n - 1); }
  }

  /** A slab page counts with all its bytes exactly when it is full. */
  lemma FullPageBytes(g: Geo, kinds: seq<Kind>, i: nat)
    requires g.ParamsOk() && Tiled(g, kinds) && i < |kinds| && kinds[i].Slab?
    ensures BytesOf(g, kinds[i]) == g.PageSize() <==> Full(kinds[i].used)
  {
    assert KindOk(g, kinds, i);
    var s, used := kinds[i].shift, kinds[i].used;
    ReservedIs(g, s);
    AllInUseIff(used, |used|);
    ScaleMonotone(InUse(used, |used|), |used|, s);
  }

  // ------------------------------------------------- the report, class by class

  /** The kinds of page the report tells apart, by the number of chunks.  More
      than 64 do not fit a word, fewer than 64 leave room for the shift. */
  predicate SmallKind(k: Kind) { k.Slab? && |k.used| > 64 }

  predicate ExactKind(k: Kind) { k.Slab? && |k.used| == 64 }

  predicate BigKind(k: Kind) { k.Slab? && |k.used| < 64 }

  predicate BlockKind(k: Kind) { k.Block? || k.BlockPart? }

  predicate FreeKind(k: Kind) { k.Free? || k.FreePart? }

  lemma FateIs(g: Geo, kinds: seq<Kind>, i: nat)
    requires g.ParamsOk() && Tiled(g, kinds) && i < |kinds|
    ensures FateOf(g, kinds[i]) == SmallPage <==> SmallKind(kinds[i])
    ensures FateOf(g, kinds[i]) == ExactPage <==> ExactKind(kinds[i])
    ensures FateOf(g, kinds[i]) == BigPage <==> BigKind(kinds[i])
    ensures FateOf(g, kinds[i]) == BlockPage <==> BlockKind(kinds[i])
    ensures FateOf(g, kinds[i]) == FreePage <==> FreeKind(kinds[i])
  {
    assert KindOk(g, kinds, i);
    if kinds[i].Slab? { ReservedBounds(g, kinds[i].shift); }
  }

  /** The pages of a kind among the first i. */
  ghost function PagesOf(kinds: seq<Kind>, i: nat, sel: Kind -> bool): set<int>
    requires i <= |kinds|
  {
    set p | 0 <= p < i && sel(kinds[p])
  }

  /** Live bytes in the pages of a kind among the first i, and the bytes they
      reserve for their bitmaps. */
  ghost function BytesWhere(g: Geo, t: Table, i: nat, sel: Kind -> bool): nat
    requires g.ParamsOk() && i <= |t.kinds|
  {
    if i == 0 then 0
    else
      BytesWhere(g, t, i - 1, sel)
      + if sel(t.kinds[i - 1])
        then BytesIn(Live(g, t), Address(g, i - 1, 0), Address(g, i, 0)) + ReservedBytes(g, t.kinds[i - 1])
        else 0
  }

  ghost predicate FateSelects(g: Geo, kinds: seq<Kind>, f: Fate, sel: Kind -> bool)
    requires g.ParamsOk()
  {
    forall i {:trigger kinds[i]} | 0 <= i < |kinds| :: FateOf(g, kinds[i]) == f <==> sel(kinds[i])
  }

  lemma {:induction false} CountIs(g: Geo, kinds: seq<Kind>, i: nat, f: Fate, sel: Kind -> bool)
    requires g.ParamsOk() && i <= |kinds| && FateSelects(g, kinds, f, sel)
    ensures PageCount(g, kinds, i, f) == |PagesOf(kinds, i, sel)|
  {
    if i == 0 {
      assert PagesOf(kinds, 0, sel) == {};
    } else {
      CountIs(g, kinds, i - 1, f, sel);
      assert PagesOf(kinds, i, sel) == PagesOf(kinds, i - 1, sel) + if sel(kinds[i - 1]) then {i - 1} else {};
    }
  }

  lemma {:induction false} BytesAre(g: Geo, t: Table, i: nat, f: Fate, sel: Kind -> bool)
    requires g.Ok() && Tiled(g, t.kinds) && i <= |t.kinds| && FateSelects(g, t.kinds, f, sel)
    ensures ByteCount(g, t.kinds, i, f) == BytesWhere(g, t, i, sel)
  {
    if i > 0 {
      BytesAre(g, t, i - 1, f, sel);
      PageBytes(g, t, i - 1);
    }
  }

  /** Each page counter is the number of pages of its kind, each byte counter
      the live and reserved bytes in them. */
  ghost predicate ByClass(g: Geo, t: Table, s: Stat)
    requires g.ParamsOk()
  {
    var n := |t.kinds|;
    && s.pSmall == |PagesOf(t.kinds, n, SmallKind)| && s.bSmall == BytesWhere(g, t, n, SmallKind)
    && s.pExact == |PagesOf(t.kinds, n, ExactKind)| && s.bExact == BytesWhere(g, t, n, ExactKind)
    && s.pBig == |PagesOf(t.kinds, n, BigKind)| && s.bBig == BytesWhere(g, t, n, BigKind)
    && s.pPage == |PagesOf(t.kinds, n, BlockKind)| && s.bPage == BytesWhere(g, t, n, BlockKind)
    && s.freePage == |PagesOf(t.kinds, n, FreeKind)|
  }

  lemma FatesSelect(g: Geo, kinds: seq<Kind>)
    requires g.ParamsOk() && Tiled(g, kinds)
    ensures FateSelects(g, kinds, SmallPage, SmallKind) && FateSelects(g, kinds, ExactPage, ExactKind)
    ensures FateSelects(g, kinds, BigPage, BigKind) && FateSelects(g, kinds, BlockPage, BlockKind)
    ensures FateSelects(g, kinds, FreePage, FreeKind)
  {
    forall i {:trigger kinds[i]} | 0 <= i < |kinds|
      ensures FateOf(g, kinds[i]) == SmallPage <==> SmallKind(kinds[i])
      ensures FateOf(g, kinds[i]) == ExactPage <==> ExactKind(kinds[i])
      ensures FateOf(g, kinds[i]) == BigPage <==> BigKind(kinds[i])
      ensures FateOf(g, kinds[i]) == BlockPage <==> BlockKind(kinds[i])
      ensures FateOf(g, kinds[i]) == FreePage <==> FreeKind(kinds[i])
    {
      FateIs(g, kinds, i);
    }
  }

  /** The report, class by class. */
  lemma ReportByClass(g: Geo, t: Table, s: Stat)
    requires g.Ok() && Inv(g, t) && Counted(g, t.kinds, |t.kinds|, s)
    ensures ByClass(g, t, s)
  {
    FatesSelect(g, t.kinds);
    var n := |t.kinds|;
    CountIs(g, t.kinds, n, SmallPage, SmallKind);
    CountIs(g, t.kinds, n, ExactPage, ExactKind);
    CountIs(g, t.kinds, n, BigPage, BigKind);
    CountIs(g, t.kinds, n, BlockPage, BlockKind);
    CountIs(g, t.kinds, n, FreePage, FreeKind);
    BytesAre(g, t, n, SmallPage, SmallKind);
    BytesAre(g, t, n, ExactPage, ExactKind);
    BytesAre(g, t, n, BigPage, BigKind);
    BytesAre(g, t, n, BlockPage, BlockKind);
  }

  /** No counter wraps: at every point of the walk the pages counted do not
      exceed the pool, nor do the bytes. */
  lemma CountersFit(g: Geo, t: Table, i: nat, s: Stat)
    requires g.Ok() && Inv(g, t) && i <= |t.kinds| && Counted(g, t.kinds, i, s)
    ensures s.pSmall + s.pExact + s.pBig + s.pPage + s.freePage == i <= g.pages && s.maxFreePages <= g.pages
    ensures s.bSmall + s.bExact + s.bBig + s.bPage == s.usedSize <= g.end - g.start <= ALL_ONES
    ensures g.pages <= ALL_ONES
  {
    FatesPartition(g, t.kinds, i);
    BytesPartition(g, t.kinds, i);
    BytesGrow(t.kinds, g, i, |t.kinds|);
    StartsWithHead(g, t.kinds);
    ScaleZero(g.pageShift);
    UsedFits(g, t.kinds, 0);
    LongestFreeIs(t.kinds, i);
    assert forall j {:trigger t.kinds[j]} | 0 <= j < |t.kinds| :: KindOk(g, t.kinds, j);
    PagesReach(g);
  }

  lemma DivisionGap(a: nat, b: nat, d: nat)
    requires d > 0 && a + d <= b
    ensures a / d < b / d
  {
    var q := a / d;
    assert a == d * q + a % d;
    assert b == d * (b / d) + b % d;
    if b / d <= q {
      MulMonotone(b / d, q, d);
      assert false;
    }
  }

  /** The percentage is the real one exactly when the product fits a word. */
  lemma PercentExactIff(used: nat, pool: nat)
    requires 0 < pool <= ALL_ONES
    ensures UsedPct(used, pool) == used * 100 / pool <==> used * 100 <= ALL_ONES
  {
    var x, m := used * 100, ALL_ONES + 1;
    if x >= m {
      var r := x % m;
      assert r + m <= x;
      DivisionGap(r, x, pool);
    }
  }

  /** Bytes in the pages of a pool. */
  function PageBytesOf(g: Geo): nat {
    Scale(g.pages, g.pageShift)
  }

  lemma BlockOfAll(g: Geo, kinds: seq<Kind>)
    requires g.ParamsOk() && Tiled(g, kinds) && g.pages >= 1 && kinds[0] == Block(g.pages)
    ensures TotalBytes(g, kinds, g.pages) == PageBytesOf(g)
  {
    RunBytes(g, kinds, 0, g.pages);
  }

  lemma FreshRun(g: Geo)
    requires g.Ok() && Inv(g, InitialTable(g))
    ensures var (u, o) := AllocRun(g, InitialTable(g), g.pages);
            o == Got(0) && |u.kinds| == g.pages && u.kinds[0] == Block(g.pages)
  {
    var t := InitialTable(g);
    FreeListIsFree(g, t);
    assert t.rings[0] == [0] && t.kinds[0] == Free(g.pages);
  }

  /** A request for all of its pages is served by a fresh pool, and then every
      byte of them is in use. */
  lemma FreshPoolServesAll(g: Geo)
    requires g.Ok()
    ensures var t := InitialTable(g);
            && Inv(g, t) && PagesFor(g, PageBytesOf(g)) == g.pages && PageBytesOf(g) >= g.MaxSize()
            && var (u, o) := Alloc(g, t, PageBytesOf(g));
               o.Got? && |u.kinds| == g.pages && TotalBytes(g, u.kinds, g.pages) == PageBytesOf(g)
  {
    var t := InitialTable(g);
    InitialTableOk(g);
    WholePages(g, g.pages);
    HalfPage(g);
    FreshRun(g);
    AllocKeeps(g, t, PageBytesOf(g));
    BlockOfAll(g, Alloc(g, t, PageBytesOf(g)).0.kinds);
  }

  /** `used_size * 100` does not wrap after this run. */
  predicate ProductFits(g: Geo, ops: seq<Op>)
    requires g.Ok() && Inv(g, InitialTable(g)) && RunOk(g, InitialTable(g), ops)
  {
    var u := Run(g, InitialTable(g), ops).0;
    TotalBytes(g, u.kinds, |u.kinds|) * 100 <= ALL_ONES
  }

  /** Over every run of a fresh pool the percentage stays exact exactly when its
      pages hold at most (2^64 - 1) / 100 bytes. */
  lemma PercentExactOverRunsIff(g: Geo)
    requires g.Ok() && Inv(g, InitialTable(g))
    ensures (forall ops | RunOk(g, InitialTable(g), ops) :: ProductFits(g, ops)) <==> PageBytesOf(g) * 100 <= ALL_ONES
  {
    var t := InitialTable(g);
    if PageBytesOf(g) * 100 <= ALL_ONES {
      forall ops | RunOk(g, t, ops)
        ensures ProductFits(g, ops)
      {
        var u := Run(g, t, ops).0;
        StartsWithHead(g, u.kinds);
        ScaleZero(g.pageShift);
        UsedFits(g, u.kinds, 0);
      }
    } else {
      FreshPoolServesAll(g);
      var ops := [AllocOp(PageBytesOf(g))];
      AllocKeeps(g, t, PageBytesOf(g));
      assert ops[1..] == [] && RunOk(g, t, ops);
      assert Run(g, t, ops).0 == Alloc(g, t, PageBytesOf(g)).0;
      assert !ProductFits(g, ops);
    }
  }

  lemma PoolOfPow2(g: Geo, m: nat)
    requires g.ParamsOk() && g.pages == g.tableLen == Pow2(m)
    requires g.start == g.PageSize() && g.end == g.start + Pow2(m + g.pageShift) <= ALL_ONES
    ensures g.Ok() && PageBytesOf(g) == Pow2(m + g.pageShift)
  {
    ScalePow2(m, g.pageShift);
    ScaleAdd(g.pages, 1, g.pageShift);
    ScaleOne(g.pageShift);
    Join(1, 0, g.pageShift);
  }

  lemma Doubled(k: nat)
    ensures Pow2(k + 6) == 64 * Pow2(k)
  {
    assert Pow2(k + 2) == 4 * Pow2(k) && Pow2(k + 4) == 4 * Pow2(k + 2);
  }

  /** Pools for which it does wrap: 2^58 bytes of pages, which for 4096-byte
      pages are 2^46. */
  lemma HugePoolWraps(g: Geo, m: nat)
    requires g.ParamsOk() && g.pages == g.tableLen == Pow2(m) && m + g.pageShift == 58
    requires g.start == g.PageSize() && g.end == g.start + Pow2(58)
    ensures g.Ok() && PageBytesOf(g) * 100 > ALL_ONES
  {
    WordBound();
    Doubled(58);
    Pow2Monotone(g.pageShift, 58);
    PoolOfPow2(g, m);
  }

  /** `(end - start) / pagesize` is the number of usable pages. */
  lemma PagesInPool(g: Geo)
    requires g.Ok()
    ensures g.start <= g.end && Shr(g.end - g.start, g.pageShift) == g.pages
  {
    NextMultiple(g.pages, g.pageShift);
    Join(g.pages, g.end - g.start - Scale(g.pages, g.pageShift), g.pageShift);
  }

  lemma PoolNotEmpty(g: Geo)
    requires g.Ok()
    ensures g.start < g.end
  {
    PageInPool(g, 0);
  }
}
