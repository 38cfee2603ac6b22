/** The slab allocator refines a map from addresses to block sizes. */
module SlabHeap {
  import opened Words
  import opened Lists
  import opened PageTable
  import opened Chunks
  import opened Allocator

  // ------------------------------------------------------------- one step

  lemma NewSlabGains(g: Geo, t: Table, u: Table, page: int, shift: nat)
    requires g.ParamsOk() && g.IsClass(shift) && |t.kinds| == |u.kinds|
    requires 0 <= page < |t.kinds| && t.kinds[page].Free? && |u.rings| == g.RingCount()
    requires GainsOne(g, t, u, page, 0)
    ensures GainsOne(g, t, NewSlab(g, u, page, shift), page, Scale(g.Reserved(shift), shift))
  {
    ReservedBounds(g, shift);
    ChunkInPage(g, shift, g.Reserved(shift));
    var v := NewSlab(g, u, page, shift);
    var used := FirstUse(g, shift);
    assert v.kinds[page] == Slab(shift, used);
    forall o: nat
      ensures LiveIn(g, v.kinds[page], o) <==> o == Scale(g.Reserved(shift), shift)
    {
      ChunkAt(g, shift, g.Reserved(shift), o);
    }
  }

  lemma TakeChunkRefines(g: Geo, t: Table, r: nat, page: int, c: nat)
    requires g.Ok() && Tiled(g, t.kinds)
    requires r < |t.rings| && t.rings[r] != [] && t.rings[r][0] == page
    requires 0 <= page < |t.kinds| && t.kinds[page].Slab? && !Full(t.kinds[page].used)
    requires c == FirstClear(t.kinds[page].used)
    ensures var p := Address(g, page, Scale(c, t.kinds[page].shift));
            && p !in Live(g, t)
            && Live(g, TakeChunk(t, r)) == Live(g, t)[p := Pow2(t.kinds[page].shift)]
  {
    assert KindOk(g, t.kinds, page);
    MarkGains(g, t, TakeChunk(t, r), page, c);
    LiveGains(g, t, TakeChunk(t, r), page, Scale(c, t.kinds[page].shift));
  }

  lemma NewSlabRefines(g: Geo, t: Table, u: Table, v: Table, page: int, shift: nat)
    requires g.Ok() && |t.kinds| == g.pages && g.IsClass(shift) && |u.rings| == g.RingCount()
    requires 0 <= page < |t.kinds| && t.kinds[page].Free? && GainsOne(g, t, u, page, 0)
    requires v == NewSlab(g, u, page, shift)
    ensures var p := Address(g, page, Scale(g.Reserved(shift), shift));
            && p !in Live(g, t)
            && Live(g, v) == Live(g, t)[p := Pow2(shift)]
  {
    assert GainsOne(g, t, v, page, Scale(g.Reserved(shift), shift)) && SizeIn(g, v.kinds[page]) == Pow2(shift) by {
      NewSlabGains(g, t, u, page, shift);
    }
    LiveGains(g, t, v, page, Scale(g.Reserved(shift), shift));
  }

  lemma AllocChunkRefines(g: Geo, t: Table, shift: nat)
    requires g.Ok() && Inv(g, t) && g.IsClass(shift)
    ensures var (u, o) := AllocChunk(g, t, shift);
            && (o.Failed? ==> u == t)
            && (o.Got? ==> o.at !in Live(g, t)
                           && Live(g, u) == Live(g, t)[o.at := Pow2(shift)])
  {
    var r := 1 + shift - g.minShift;
    if t.rings[r] != [] {
      FirstOnRing(g, t, shift);
      var page := t.rings[r][0];
      TakeChunkRefines(g, t, r, page, FirstClear(t.kinds[page].used));
    } else {
      FreeListIsFree(g, t);
      var j := FirstFit(t.kinds, t.rings[0], 1);
      if j < |t.rings[0]| {
        var u := Carve(t, j, 1);
        CarveGains(g, t, j, 1);
        NewSlabRefines(g, t, u, NewSlab(g, u, t.rings[0][j], shift), t.rings[0][j], shift);
      }
    }
  }

  /** What a request takes, said of sizes alone.  Below half a page: a power of
      two between the least chunk and half a page that holds the size, and less
      than twice the size unless it is the least chunk.  From half a page on:
      whole pages, less than a page more than the size. */
  ghost predicate FairSize(g: Geo, size: nat, taken: nat) {
    && size <= taken
    && (2 * size < g.PageSize() ==>
          && 2 * taken <= g.PageSize() && (taken == Pow2(g.minShift) || (Pow2(g.minShift) < taken < 2 * size))
          && exists s: nat :: s < g.pageShift && taken == Pow2(s))
    && (2 * size >= g.PageSize() ==>
          taken < size + g.PageSize() && exists k: nat :: k >= 1 && taken == Scale(k, g.pageShift))
  }

  lemma Pow2Gap(a: nat, b: nat)
    ensures a < b ==> 2 * Pow2(a) <= Pow2(b)
    ensures a == b ==> Pow2(a) == Pow2(b)
  {
    if a < b { Pow2Monotone(a + 1, b); }
  }

  lemma HalfPage(g: Geo)
    requires g.ParamsOk()
    ensures g.PageSize() == 2 * Pow2(g.pageShift - 1) && g.MaxSize() == Pow2(g.pageShift - 1)
  {
  }

  lemma ClassIsFair(g: Geo, size: nat, s: nat)
    requires g.ParamsOk() && 2 * size < g.PageSize() && g.IsClass(s) && size <= Pow2(s)
    requires s == g.minShift || Pow2(s - 1) < size
    ensures FairSize(g, size, Pow2(s))
  {
    HalfPage(g);
    Pow2Monotone(s, g.pageShift - 1);
    Pow2Gap(g.minShift, s);
    if s > g.minShift { assert Pow2(s) == 2 * Pow2(s - 1); }
  }

  lemma RunIsFair(g: Geo, size: nat, k: nat)
    requires g.ParamsOk() && 2 * size >= g.PageSize() && k >= 1
    requires size <= Scale(k, g.pageShift) < size + g.PageSize()
    ensures FairSize(g, size, Scale(k, g.pageShift))
  {
  }

  lemma RoundedIsFair(g: Geo, size: nat)
    requires g.ParamsOk()
    ensures FairSize(g, size, Rounded(g, size))
  {
    HalfPage(g);
    if 2 * size < g.PageSize() {
      ClassIsFair(g, size, ClassFor(g, size));
    } else {
      RoundUpPositive(g, size);
      RunIsFair(g, size, PagesFor(g, size));
    }
  }

  /** Both bounds leave one size only. */
  lemma FairSizeUnique(g: Geo, size: nat, a: nat, b: nat)
    requires g.ParamsOk() && FairSize(g, size, a) && FairSize(g, size, b)
    ensures a == b
  {
    HalfPage(g);
    if 2 * size < g.PageSize() {
      var s: nat :| s < g.pageShift && a == Pow2(s);
      var r: nat :| r < g.pageShift && b == Pow2(r);
      Pow2Gap(s, r);
      Pow2Gap(r, s);
      Pow2Gap(s, g.minShift);
      Pow2Gap(r, g.minShift);
    } else {
      var j: nat :| j >= 1 && a == Scale(j, g.pageShift);
      var k: nat :| k >= 1 && b == Scale(k, g.pageShift);
      ScaleMonotone(j, k, g.pageShift);
      ScaleMonotone(k, j, g.pageShift);
    }
  }

  /** An allocation leaves the map alone when it fails; otherwise it adds one
      block, at an address that was not in the map, of the size that fits the
      request. */
  lemma AllocRefines(g: Geo, t: Table, size: nat)
    requires g.Ok() && Inv(g, t)
    ensures var (u, o) := Alloc(g, t, size);
            && (o.Failed? ==> u == t)
            && (o.Got? ==> o.at !in Live(g, t)
                           && Live(g, u) == Live(g, t)[o.at := Rounded(g, size)])
    ensures size <= Rounded(g, size) && FairSize(g, size, Rounded(g, size))
  {
    RoundedIsFair(g, size);
    if size >= g.MaxSize() {
      RoundUpPositive(g, size);
      FreeListIsFree(g, t);
      var k := PagesFor(g, size);
      var j := FirstFit(t.kinds, t.rings[0], k);
      if j < |t.rings[0]| {
        CarveGains(g, t, j, k);
        LiveGains(g, t, Carve(t, j, k), t.rings[0][j], 0);
      }
    } else {
      AllocChunkRefines(g, t, ClassFor(g, size));
    }
  }

  lemma ReleaseLoses(g: Geo, t: Table, page: int)
    requires g.ParamsOk() && Shape(g, t)
    requires 0 <= page < |t.kinds| && t.kinds[page].Block?
    ensures GainsOne(g, Release(g, t, page), t, page, 0)
  {
    assert KindOk(g, t.kinds, page);
  }

  /** Giving back a free run, or a page without live chunks, changes no block. */
  lemma ReleaseSame(g: Geo, t: Table, page: int)
    requires g.ParamsOk() && Shape(g, t)
    requires 0 <= page < |t.kinds|
    requires var k := t.kinds[page];
             k.Free? || (k.Slab? && g.IsClass(k.shift) && Empty(k.used, g.Reserved(k.shift)))
    ensures Live(g, Release(g, t, page)) == Live(g, t)
  {
    assert KindOk(g, t.kinds, page);
    LiveSame(g, t, Release(g, t, page));
  }

  lemma ReleaseChunkRefines(g: Geo, t: Table, page: nat, c: nat)
    requires g.Ok() && Inv(g, t)
    requires page < |t.kinds| && t.kinds[page].Slab? && KindOk(g, t.kinds, page)
    requires var k := t.kinds[page]; g.Reserved(k.shift) <= c < |k.used| && k.used[c]
    ensures var p := Address(g, page, Scale(c, t.kinds[page].shift));
            p in Live(g, t) && Live(g, ReleaseChunk(g, t, page, c)) == Live(g, t) - {p}
  {
    var Slab(shift, used) := t.kinds[page];
    var u := ClearChunk(g, t, page, c);
    ClearChunkKeeps(g, t, page, c);
    assert used[c := false][c := true] == used;
    assert t.kinds == u.kinds[page := Slab(shift, u.kinds[page].used[c := true])];
    MarkGains(g, u, t, page, c);
    LiveGains(g, u, t, page, Scale(c, shift));
    if Empty(u.kinds[page].used, g.Reserved(shift)) {
      ReleaseSame(g, u, page);
    }
  }

  /** The same pages, with one run first on the free list. */
  function MovedToFront(t: Table, page: int): Table
    requires |t.rings| > 0 && page in t.rings[0]
  {
    Table(t.kinds, t.rings[0 := [page] + Without(t.rings[0], page)])
  }

  /** Freeing a live block removes exactly that block.  Freeing anything else
      that may be passed leaves the map alone, and the whole table too,
      unless p is the head of a free run, which then moves to the front of the
      free list. */
  lemma DeallocRefines(g: Geo, t: Table, p: int)
    requires g.Ok() && Inv(g, t) && MayFree(g, t, p)
    ensures Live(g, Dealloc(g, t, p)) == Live(g, t) - {p}
    ensures p !in Live(g, t) ==>
              || Dealloc(g, t, p) == t
              || (p >= g.start && OffsetOf(g, p) == 0 && PageOf(g, p) < |t.kinds|
                  && t.kinds[PageOf(g, p)].Free? && PageOf(g, p) in t.rings[0]
                  && Dealloc(g, t, p) == MovedToFront(t, PageOf(g, p)))
  {
    if p < g.start || p > g.end || PageOf(g, p) >= |t.kinds| {
      assert p !in Live(g, t);
    } else {
      var page, off := PageOf(g, p), OffsetOf(g, p);
      AddressParts(g, p);
      assert KindOk(g, t.kinds, page);
      match t.kinds[page]
      case Free(len) =>
        if off == 0 {
          ReleaseSame(g, t, page);
          assert ReleaseKinds(t.kinds, page, len) == t.kinds;
          assert RingOk(g, t.kinds, t.rings[0], 0) && RingOf(g, t.kinds[page]) == 0;
        }
      case Block(_) =>
        if off == 0 {
          ReleaseLoses(g, t, page);
          LiveGains(g, Release(g, t, page), t, page, 0);
        }
      case Slab(s, used) =>
        ChunkOfOffset(g, s, off);
        if Low(off, s) == 0 && used[Shr(off, s)] {
          ReleaseChunkRefines(g, t, page, Shr(off, s));
        }
      case FreePart(_) =>
      case BlockPart(_) =>
    }
  }

  // ------------------------------------------------------ where blocks go

  /** In a fresh pool the first block of whole pages is at the start, and the
      first chunk behind what the page reserves for its bitmap. */
  lemma FirstAddress(g: Geo, size: nat)
    requires g.Ok() && Inv(g, InitialTable(g)) && PagesFor(g, size) <= g.pages
    ensures Alloc(g, InitialTable(g), size).1 ==
              Got(if 2 * size >= g.PageSize() then g.start
                  else g.start + Scale(g.Reserved(ClassFor(g, size)), ClassFor(g, size)))
  {
    var t := InitialTable(g);
    HalfPage(g);
    FreeListIsFree(g, t);
    ScaleZero(g.pageShift);
    assert t.rings[0] == [0] && t.kinds[0] == Free(g.pages);
    if 2 * size >= g.PageSize() {
      RoundUpPositive(g, size);
    } else {
      assert t.rings[1 + ClassFor(g, size) - g.minShift] == [];
    }
  }

  lemma WholePages(g: Geo, k: nat)
    requires g.ParamsOk() && k >= 1
    ensures PagesFor(g, Scale(k, g.pageShift)) == k && Scale(k, g.pageShift) >= g.PageSize()
  {
    ScaleMonotone(1, k, g.pageShift);
    ScaleOne(g.pageShift);
    Join(k, g.PageSize() - 1, g.pageShift);
  }

  lemma FrontServes(g: Geo, u: Table, page: nat, k: nat)
    requires g.ParamsOk() && Inv(g, u) && k >= 1
    requires u.rings[0] != [] && u.rings[0][0] == page && page < |u.kinds| && u.kinds[page] == Free(k)
    ensures Alloc(g, u, Scale(k, g.pageShift)).1 == Got(Address(g, page, 0))
  {
    WholePages(g, k);
    HalfPage(g);
    FreeListIsFree(g, u);
  }

  lemma FreedRun(g: Geo, t: Table, p: int)
    requires g.Ok() && Inv(g, t) && p in Live(g, t) && t.kinds[PageOf(g, p)].Block?
    ensures MayFree(g, t, p) && p == Address(g, PageOf(g, p), 0) && PageOf(g, p) < |t.kinds|
    ensures var u, k := Dealloc(g, t, p), t.kinds[PageOf(g, p)].len;
            && u.rings[0][0] == PageOf(g, p) && u.kinds[PageOf(g, p)] == Free(k)
            && k >= 1 && Live(g, t)[p] == Scale(k, g.pageShift)
  {
    LiveMayBeFreed(g, t, p);
    LiveInPool(g, t, p);
    AddressParts(g, p);
    assert KindOk(g, t.kinds, PageOf(g, p));
  }

  /** The pages of a block just freed are the first that fit: asking for as much
      again gives the same address. */
  lemma FreedPagesComeBack(g: Geo, t: Table, p: int)
    requires g.Ok() && Inv(g, t) && p in Live(g, t) && t.kinds[PageOf(g, p)].Block?
    ensures MayFree(g, t, p)
    ensures var u := Dealloc(g, t, p);
            Inv(g, u) && Alloc(g, u, Live(g, t)[p]).1 == Got(p)
  {
    FreedRun(g, t, p);
    DeallocKeeps(g, t, p);
    FrontServes(g, Dealloc(g, t, p), PageOf(g, p), t.kinds[PageOf(g, p)].len);
  }

  /** A full page of two chunks to hand out or more is not empty without one. */
  lemma OtherChunk(used: seq<bool>, c: nat, reserved: nat)
    requires Full(used) && reserved <= c < |used| && reserved + 1 < |used|
    ensures !Empty(used[c := false], reserved)
  {
    var d := if c == reserved then reserved + 1 else reserved;
    assert used[c := false][d];
  }

  /** A chunk freed from a full page is handed out next in its class. */
  lemma FreedChunkComesBack(g: Geo, t: Table, p: int)
    requires g.Ok() && Inv(g, t) && p in Live(g, t)
    requires var k := t.kinds[PageOf(g, p)]; k.Slab? && g.IsClass(k.shift) && Full(k.used)
    ensures MayFree(g, t, p)
    ensures var u := Dealloc(g, t, p);
            Inv(g, u) && AllocChunk(g, u, t.kinds[PageOf(g, p)].shift).1 == Got(p)
  {
    LiveMayBeFreed(g, t, p);
    LiveInPool(g, t, p);
    DeallocKeeps(g, t, p);
    var page, off := PageOf(g, p), OffsetOf(g, p);
    var Slab(s, used) := t.kinds[page];
    assert KindOk(g, t.kinds, page);
    AddressParts(g, p);
    ReservedBounds(g, s);
    ChunkOfOffset(g, s, off);
    Split(off, s);
    var c := Shr(off, s);
    var rest := used[c := false];
    OtherChunk(used, c, g.Reserved(s));
    assert !rest[c];
    var u := Dealloc(g, t, p);
    assert u.kinds[page] == Slab(s, rest) && u.rings[1 + s - g.minShift][0] == page;
    assert FirstClear(rest) == c;
  }

  // ------------------------------------------------------- blocks are apart

  predicate Apart(p: int, m: nat, q: int, n: nat) {
    p + m <= q || q + n <= p
  }

  lemma PagesInOrder(g: Geo, i: nat, j: nat)
    requires i <= j
    ensures Address(g, i, 0) <= Address(g, j, 0)
  {
    ScaleMonotone(i, j, g.pageShift);
  }

  /** The pages of two runs that start at different pages do not meet. */
  lemma RunsApart(g: Geo, t: Table, i: nat, j: nat)
    requires g.ParamsOk() && Tiled(g, t.kinds)
    requires i < j < |t.kinds| && (t.kinds[i].Block? || t.kinds[i].Slab?)
    requires t.kinds[j].Block? || t.kinds[j].Slab?
    ensures i + Span(t.kinds[i]) <= j
    ensures Address(g, i + Span(t.kinds[i]), 0) <= Address(g, j, 0)
  {
    assert KindOk(g, t.kinds, i);
    PagesInOrder(g, i + Span(t.kinds[i]), j);
  }

  lemma RunEnd(g: Geo, i: nat, k: nat)
    ensures Address(g, i + k, 0) == Address(g, i, 0) + Scale(k, g.pageShift)
    ensures k == 1 ==> Address(g, i + k, 0) == Address(g, i, 0) + g.PageSize()
  {
    ScaleAdd(i, k, g.pageShift);
    ScaleOne(g.pageShift);
  }

  /** A live block stays inside the pages of its run. */
  lemma BlockInRun(g: Geo, t: Table, p: int)
    requires g.Ok() && Tiled(g, t.kinds) && IsLive(g, t, p)
    ensures var i := PageOf(g, p);
            && Address(g, i, 0) <= p
            && p + SizeIn(g, t.kinds[i]) <= Address(g, i + Span(t.kinds[i]), 0)
            && i + Span(t.kinds[i]) <= |t.kinds|
  {
    var i, off := PageOf(g, p), OffsetOf(g, p);
    AddressParts(g, p);
    assert KindOk(g, t.kinds, i);
    if t.kinds[i].Slab? {
      var s := t.kinds[i].shift;
      ChunkOfOffset(g, s, off);
      ChunkInPage(g, s, Shr(off, s));
    }
    RunEnd(g, i, Span(t.kinds[i]));
  }

  lemma MultiplesApart(a: nat, b: nat, k: nat)
    ensures a != b ==> Apart(Scale(a, k), Pow2(k), Scale(b, k), Pow2(k))
  {
    ScaleMonotone(a, b, k);
    ScaleMonotone(b, a, k);
  }

  lemma SamePageApart(g: Geo, t: Table, p: int, q: int)
    requires g.Ok() && Tiled(g, t.kinds) && IsLive(g, t, p) && IsLive(g, t, q)
    requires p != q && PageOf(g, p) == PageOf(g, q)
    ensures var n := SizeIn(g, t.kinds[PageOf(g, p)]); Apart(p, n, q, n)
  {
    AddressParts(g, p);
    AddressParts(g, q);
    var i := PageOf(g, p);
    assert KindOk(g, t.kinds, i);
    if t.kinds[i].Slab? {
      var s := t.kinds[i].shift;
      ChunkOfOffset(g, s, OffsetOf(g, p));
      ChunkOfOffset(g, s, OffsetOf(g, q));
      MultiplesApart(Shr(OffsetOf(g, p), s), Shr(OffsetOf(g, q), s), s);
    }
  }

  lemma OtherPageApart(g: Geo, t: Table, p: int, q: int)
    requires g.Ok() && Tiled(g, t.kinds) && IsLive(g, t, p) && IsLive(g, t, q)
    requires PageOf(g, p) != PageOf(g, q)
    ensures Apart(p, SizeIn(g, t.kinds[PageOf(g, p)]), q, SizeIn(g, t.kinds[PageOf(g, q)]))
  {
    BlockInRun(g, t, p);
    BlockInRun(g, t, q);
    if PageOf(g, p) < PageOf(g, q) {
      RunsApart(g, t, PageOf(g, p), PageOf(g, q));
    } else {
      RunsApart(g, t, PageOf(g, q), PageOf(g, p));
    }
  }

  /** Blocks handed out never overlap and lie in [start, end). */
  lemma BlocksApart(g: Geo, t: Table, p: int, q: int)
    requires g.Ok() && Tiled(g, t.kinds) && p in Live(g, t) && q in Live(g, t)
    ensures g.start <= p && p + Live(g, t)[p] <= g.end
    ensures p != q ==> Apart(p, Live(g, t)[p], q, Live(g, t)[q])
  {
    BlockInRun(g, t, p);
    PagesInOrder(g, PageOf(g, p) + Span(t.kinds[PageOf(g, p)]), |t.kinds|);
    if PageOf(g, p) == PageOf(g, q) {
      if p != q { SamePageApart(g, t, p, q); }
    } else {
      OtherPageApart(g, t, p, q);
    }
  }

  lemma BitmapInPage(g: Geo, t: Table, page: nat)
    requires g.Ok() && Tiled(g, t.kinds)
    requires page < |t.kinds| && t.kinds[page].Slab? && t.kinds[page].shift < g.ExactShift()
    ensures Address(g, page, 0) + g.Chunks(t.kinds[page].shift) / 8 <= Address(g, page + 1, 0)
  {
    var s := t.kinds[page].shift;
    assert KindOk(g, t.kinds, page);
    ReservedBounds(g, s);
    ChunkInPage(g, s, g.Reserved(s));
    RunEnd(g, page, 1);
  }

  lemma BlockPastBitmap(g: Geo, t: Table, p: int)
    requires g.Ok() && Tiled(g, t.kinds) && IsLive(g, t, p)
    requires var k := t.kinds[PageOf(g, p)]; k.Slab? && k.shift < g.ExactShift()
    ensures Address(g, PageOf(g, p), 0) + g.Chunks(t.kinds[PageOf(g, p)].shift) / 8 <= p
  {
    var s := t.kinds[PageOf(g, p)].shift;
    assert KindOk(g, t.kinds, PageOf(g, p));
    AddressParts(g, p);
    ReservedBounds(g, s);
    ChunkOfOffset(g, s, OffsetOf(g, p));
    ScaleMonotone(g.Reserved(s), Shr(OffsetOf(g, p), s), s);
  }

  /** No live block touches the bitmap at the start of a SMALL page. */
  lemma BlocksMissBitmaps(g: Geo, t: Table, p: int, page: nat)
    requires g.Ok() && Tiled(g, t.kinds) && p in Live(g, t)
    requires page < |t.kinds| && t.kinds[page].Slab? && t.kinds[page].shift < g.ExactShift()
    ensures Apart(p, Live(g, t)[p], Address(g, page, 0), g.Chunks(t.kinds[page].shift) / 8)
  {
    BitmapInPage(g, t, page);
    BlockInRun(g, t, p);
    if PageOf(g, p) < page {
      RunsApart(g, t, PageOf(g, p), page);
    } else if page < PageOf(g, p) {
      RunsApart(g, t, page, PageOf(g, p));
    } else {
      BlockPastBitmap(g, t, p);
    }
  }

  // ------------------------------------------------------------------ runs

  datatype Op = AllocOp(size: nat) | FreeOp(p: int)

  /** What a caller sees of one call. */
  datatype Event = Allocated(p: int, asked: nat, size: nat) | NoMemory(asked: nat) | Freed(p: int)

  predicate OpOk(g: Geo, t: Table, op: Op)
    requires g.ParamsOk()
  {
    op.FreeOp? ==> MayFree(g, t, op.p)
  }

  function Step(g: Geo, t: Table, op: Op): (Table, Event)
    requires g.ParamsOk() && Inv(g, t) && OpOk(g, t, op)
  {
    match op
    case AllocOp(size) =>
      var (u, o) := Alloc(g, t, size);
      (u, if o.Got? then Allocated(o.at, size, Rounded(g, size)) else NoMemory(size))
    case FreeOp(p) => (Dealloc(g, t, p), Freed(p))
  }

  lemma StepKeeps(g: Geo, t: Table, op: Op)
    requires g.ParamsOk() && Inv(g, t) && OpOk(g, t, op)
    ensures Inv(g, Step(g, t, op).0)
  {
    match op
    case AllocOp(size) => AllocKeeps(g, t, size);
    case FreeOp(p) => DeallocKeeps(g, t, p);
  }

  /** A run: the operations in order, each pointer one that may be freed. */
  predicate RunOk(g: Geo, t: Table, ops: seq<Op>)
    requires g.ParamsOk() && Inv(g, t)
    decreases |ops|
  {
    ops == [] ||
    (&& OpOk(g, t, ops[0])
     && (StepKeeps(g, t, ops[0]); RunOk(g, Step(g, t, ops[0]).0, ops[1..])))
  }

  function Run(g: Geo, t: Table, ops: seq<Op>): (r: (Table, seq<Event>))
    requires g.ParamsOk() && Inv(g, t) && RunOk(g, t, ops)
    ensures Inv(g, r.0)
    decreases |ops|
  {
    if ops == [] then (t, [])
    else
      StepKeeps(g, t, ops[0]);
      var (u, e) := Step(g, t, ops[0]);
      var (v, es) := Run(g, u, ops[1..]);
      (v, [e] + es)
  }

  /** The specification a caller relies on, with no pages in it: a map of
      blocks in [lo, hi).  A successful allocation adds a block that is new,
      large enough, inside the pool and clear of every other block; a free
      removes the block at that address, if there is one. */
  ghost predicate HeapAllows(m: map<int, nat>, e: Event, lo: int, hi: int) {
    e.Allocated? ==>
      && e.p !in m && e.asked <= e.size && lo <= e.p && e.p + e.size <= hi
      && forall q | q in m :: Apart(e.p, e.size, q, m[q])
  }

  ghost function HeapAfter(m: map<int, nat>, e: Event): map<int, nat> {
    match e
    case Allocated(p, _, size) => m[p := size]
    case NoMemory(_) => m
    case Freed(p) => m - {p}
  }

  ghost predicate HeapRun(m: map<int, nat>, es: seq<Event>, m': map<int, nat>, lo: int, hi: int)
    decreases |es|
  {
    if es == [] then m' == m
    else HeapAllows(m, es[0], lo, hi) && HeapRun(HeapAfter(m, es[0]), es[1..], m', lo, hi)
  }

  lemma StepRefines(g: Geo, t: Table, op: Op)
    requires g.Ok() && Inv(g, t) && OpOk(g, t, op)
    ensures var (u, e) := Step(g, t, op);
            HeapAllows(Live(g, t), e, g.start, g.end) && Live(g, u) == HeapAfter(Live(g, t), e)
  {
    match op
    case AllocOp(size) =>
      AllocRefines(g, t, size);
      AllocKeeps(g, t, size);
      var (u, o) := Alloc(g, t, size);
      if o.Got? {
        BlocksApart(g, u, o.at, o.at);
        forall q | q in Live(g, t)
          ensures Apart(o.at, Rounded(g, size), q, Live(g, t)[q])
        {
          BlocksApart(g, u, o.at, q);
        }
      }
    case FreeOp(p) => DeallocRefines(g, t, p);
  }

  /** Over every run from every reachable state, the allocator behaves like
      the map. */
  lemma {:induction false} RunRefines(g: Geo, t: Table, ops: seq<Op>)
    requires g.Ok() && Inv(g, t) && RunOk(g, t, ops)
    ensures var (u, es) := Run(g, t, ops);
            Inv(g, u) && HeapRun(Live(g, t), es, Live(g, u), g.start, g.end)
    decreases |ops|
  {
    if ops != [] {
      StepKeeps(g, t, ops[0]);
      StepRefines(g, t, ops[0]);
      var (u, e) := Step(g, t, ops[0]);
      RunRefines(g, u, ops[1..]);
      var (v, es) := Run(g, u, ops[1..]);
      assert ([e] + es)[1..] == es;
    }
  }

  // ----------------------------------------------------------- page leaks

  lemma NothingLiveHere(g: Geo, t: Table, i: nat)
    requires g.Ok() && Inv(g, t) && Live(g, t) == map[] && i < |t.kinds|
    ensures !t.kinds[i].Block? && !t.kinds[i].Slab?
  {
    assert KindOk(g, t.kinds, i);
    if t.kinds[i].Block? {
      AddressDecodes(g, i, 0);
      LiveInPool(g, t, Address(g, i, 0));
    } else if t.kinds[i].Slab? {
      var Slab(s, used) := t.kinds[i];
      assert !Emptied(g, t.kinds[i]);
      var c :| g.Reserved(s) <= c < |used| && used[c];
      ChunkInPage(g, s, c);
      AddressDecodes(g, i, Scale(c, s));
      LiveInPool(g, t, Address(g, i, Scale(c, s)));
    }
  }

  lemma NoSlabNoRing(g: Geo, t: Table, r: nat)
    requires g.ParamsOk() && Shape(g, t) && 0 < r < |t.rings|
    requires forall i | 0 <= i < |t.kinds| :: !t.kinds[i].Slab?
    ensures t.rings[r] == []
  {
    if t.rings[r] != [] {
      OnRing(g, t, r, t.rings[r][0]);
    }
  }

  /** With no live block every page is on the free list: slab pages are gone,
      blocks are gone, and each run head is on the list once. */
  lemma NothingLeaks(g: Geo, t: Table)
    requires g.Ok() && Inv(g, t) && Live(g, t) == map[]
    ensures forall i | 0 <= i < |t.kinds| :: t.kinds[i].Free? || t.kinds[i].FreePart?
    ensures forall i | 0 <= i < |t.kinds| && t.kinds[i].Free? :: i in t.rings[0]
    ensures NoDup(t.rings[0])
    ensures forall r | 0 < r < |t.rings| :: t.rings[r] == []
  {
    forall i | 0 <= i < |t.kinds|
      ensures !t.kinds[i].Block? && !t.kinds[i].Slab?
    {
      NothingLiveHere(g, t, i);
    }
    forall i | 0 <= i < |t.kinds|
      ensures t.kinds[i].Free? || t.kinds[i].FreePart?
    {
      assert KindOk(g, t.kinds, i);
    }
    assert RingOk(g, t.kinds, t.rings[0], 0);
    assert forall i | 0 <= i < |t.kinds| && t.kinds[i].Free? :: RingOf(g, t.kinds[i]) == 0;
    forall r | 0 < r < |t.rings|
      ensures t.rings[r] == []
    {
      NoSlabNoRing(g, t, r);
    }
  }
}
