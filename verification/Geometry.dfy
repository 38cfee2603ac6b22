/** How the memory handed to `ncx_slab_init` is laid out: header, size-class
    sentinels, descriptor table, page-aligned pages. */
module Geometry {
  import opened Words
  import opened PageTable
  import opened Allocator

  /** sizeof(ncx_slab_page_t) with 64-bit words: three words. */
  const DESC_SIZE: nat := 24

  /** `ncx_align_ptr`: the first multiple of 2^k at or after x. */
  function AlignUp(x: nat, k: nat): nat {
    Scale(Shr(x + Pow2(k) - 1, k), k)
  }

  lemma AlignUpBounds(x: nat, k: nat)
    ensures x <= AlignUp(x, k) < x + Pow2(k)
    ensures Low(AlignUp(x, k), k) == 0
  {
    Split(x + Pow2(k) - 1, k);
    Join(Shr(x + Pow2(k) - 1, k), 0, k);
  }

  /** The mask expression of `ncx_align_ptr` computes it. */
  lemma AlignMask(x: nat, k: nat)
    requires k <= 16 && x + Pow2(k) - 1 <= ALL_ONES
    ensures Pow2(k) - 1 <= ALL_ONES
    ensures And(x + Pow2(k) - 1, Not(Pow2(k) - 1)) == AlignUp(x, k)
  {
    WordBound();
    Pow2Monotone(k, 64);
    AndNotLow(x + Pow2(k) - 1, k, 64);
  }

  /** First estimate of the number of pages: each costs a page and a descriptor. */
  function Estimate(size: nat, pageShift: nat): nat {
    size / (Pow2(pageShift) + DESC_SIZE)
  }

  /** `(pool->end - pool->start) / ncx_pagesize`: the pointer difference is
      converted to an unsigned word before the division. */
  function Fitting(start: nat, end: Word, pageShift: nat): nat
    requires start <= end + ALL_ONES
  {
    Shr(if start <= end then end - start else ALL_ONES + 1 - (start - end), pageShift)
  }

  /** The page count after the correction `m = pages - fitting; if (m > 0) pages -= m`. */
  function Corrected(estimate: nat, fitting: nat): nat {
    if estimate > fitting then fitting else estimate
  }

  lemma Quotient(size: nat, a: nat, b: nat)
    requires a > 0
    ensures var t := size / (a + b);
            t * a + b * t <= size < t * a + b * t + a + b
  {
    var d := a + b;
    var t := size / d;
    assert size == d * t + size % d;
    assert d * t == a * t + b * t;
  }

  lemma EstimateBound(size: nat, pageShift: nat)
    ensures var t := Estimate(size, pageShift);
            Scale(t, pageShift) + DESC_SIZE * t <= size < Scale(t, pageShift) + DESC_SIZE * t + Pow2(pageShift) + DESC_SIZE
  {
    var t := Estimate(size, pageShift);
    ScaleIsProduct(t, pageShift);
    Quotient(size, Pow2(pageShift), DESC_SIZE);
  }

  /** The correction never has to add a page: when the table ends at or before
      the end of the pool, no more pages fit than were estimated. */
  lemma CorrectionShrinks(size: nat, slots: nat, tableAt: nat, end: Word, pageShift: nat)
    requires 1 <= slots && end >= tableAt && size == (end - tableAt) + DESC_SIZE * slots
    requires var start := AlignUp(tableAt + DESC_SIZE * Estimate(size, pageShift), pageShift); start <= end
    ensures var t := Estimate(size, pageShift);
            var start := AlignUp(tableAt + DESC_SIZE * t, pageShift);
            Fitting(start, end, pageShift) <= t
  {
    var t := Estimate(size, pageShift);
    var start := AlignUp(tableAt + DESC_SIZE * t, pageShift);
    EstimateBound(size, pageShift);
    AlignUpBounds(tableAt + DESC_SIZE * t, pageShift);
    Split(end - start, pageShift);
    ScaleMonotone(t + 1, Fitting(start, end, pageShift), pageShift);
    ScaleAdd(t, 1, pageShift);
    ScaleOne(pageShift);
  }

  lemma PastTheEnd(start: nat, end: Word, pageShift: nat)
    requires pageShift <= 16 && end < start <= end + 384
    ensures Fitting(start, end, pageShift) > 0
  {
    var diff := ALL_ONES + 1 - (start - end);
    Split(diff, pageShift);
    Pow2Monotone(pageShift, 16);
    SmallPowers();
    ScaleZero(pageShift);
  }

  /** The corrected count is the number of whole pages between `start` and `end`
      exactly when the aligned start has not passed the end (or no page was
      estimated at all).  Past the end the unsigned difference is huge, the
      correction does not fire, and the pool keeps pages it does not have. */
  lemma CorrectionExact(size: nat, slots: nat, tableAt: nat, end: Word, pageShift: nat)
    requires 1 <= slots <= 16 && pageShift <= 16 && end >= tableAt && size == (end - tableAt) + DESC_SIZE * slots
    ensures var t := Estimate(size, pageShift);
            var start := AlignUp(tableAt + DESC_SIZE * t, pageShift);
            && start <= end + ALL_ONES
            && var real_ := if start <= end then Shr(end - start, pageShift) else 0;
              Corrected(t, Fitting(start, end, pageShift)) == real_ <==> start <= end || t == 0
  {
    var t := Estimate(size, pageShift);
    var start := AlignUp(tableAt + DESC_SIZE * t, pageShift);
    AlignUpBounds(tableAt + DESC_SIZE * t, pageShift);
    EstimateBound(size, pageShift);
    Pow2Monotone(pageShift, 16);
    SmallPowers();
    if start <= end {
      CorrectionShrinks(size, slots, tableAt, end, pageShift);
    } else if t > 0 {
      ScaleMonotone(1, t, pageShift);
      ScaleOne(pageShift);
      PastTheEnd(start, end, pageShift);
    }
  }

  lemma PageOf12()
    ensures Pow2(12) == 4096
  {
    assert Pow2(6) == 64;
  }

  /** Such pools exist: 4120 bytes after the header, 4096-byte pages. */
  lemma TinyPoolKeepsAPhantomPage()
    ensures var tableAt := 8048 + DESC_SIZE * 9;
            var end: Word := 8048 + 4120;
            var t := Estimate(4120, 12);
            var start := AlignUp(tableAt + DESC_SIZE * t, 12);
            && end < start <= end + ALL_ONES
            && Corrected(t, Fitting(start, end, 12)) == 1
  {
    PageOf12();
    assert Estimate(4120, 12) == 1;
    var x := 8048 + DESC_SIZE * 9 + DESC_SIZE;
    ShiftsAreDivision(x + 4095, 12);
    ScaleIsProduct(3, 12);
    assert AlignUp(x, 12) == 12288;
    PastTheEnd(12288, 8048 + 4120, 12);
  }

  /** Where the pages start: after the table, aligned. */
  function StartOf(tableAt: nat, size: nat, pageShift: nat): nat {
    AlignUp(tableAt + DESC_SIZE * Estimate(size, pageShift), pageShift)
  }

  /** At least one whole page fits behind the table. */
  predicate RoomForAPage(tableAt: nat, size: nat, end: nat, pageShift: nat) {
    StartOf(tableAt, size, pageShift) + Pow2(pageShift) <= end
  }

  /** What init promises of the geometry: the pages start page-aligned at or
      after the end of the table, less than a page later, and as many pages as
      fit before `end` are usable. */
  predicate LaidOut(g: Geo, tableAt: nat, size: nat) {
    && g.tableLen == Estimate(size, g.pageShift)
    && tableAt + DESC_SIZE * g.tableLen <= g.start < tableAt + DESC_SIZE * g.tableLen + g.PageSize()
    && Low(g.start, g.pageShift) == 0
    && g.start <= g.end && g.pages == Shr(g.end - g.start, g.pageShift)
  }

  lemma StartOk(tableAt: nat, size: nat, end: Word, pageShift: nat)
    requires 6 <= pageShift <= 16 && tableAt <= end && size <= end
    requires RoomForAPage(tableAt, size, end, pageShift)
    ensures var x, start := tableAt + DESC_SIZE * Estimate(size, pageShift), StartOf(tableAt, size, pageShift);
            && Estimate(size, pageShift) <= ALL_ONES
            && x + Pow2(pageShift) - 1 <= ALL_ONES && Pow2(pageShift) - 1 <= ALL_ONES
            && And(x + (Pow2(pageShift) - 1), Not(Pow2(pageShift) - 1)) == start
            && x <= start < x + Pow2(pageShift)
            && Low(start, pageShift) == 0
  {
    var x := tableAt + DESC_SIZE * Estimate(size, pageShift);
    AlignUpBounds(x, pageShift);
    AlignMask(x, pageShift);
    EstimateBound(size, pageShift);
  }

  lemma PagesBetween(start: nat, end: nat, k: nat)
    requires start + Pow2(k) <= end
    ensures var n := Shr(end - start, k);
            1 <= n && start + Scale(n, k) <= end < start + Scale(n + 1, k)
  {
    var n := Shr(end - start, k);
    Split(end - start, k);
    ScaleAdd(n, 1, k);
    ScaleOne(k);
    ScaleZero(k);
  }

  lemma LayoutOk(g: Geo, tableAt: nat, size: nat, end: Word)
    requires g.ParamsOk() && g.end == end
    requires 0 < tableAt <= end && size == end - tableAt + DESC_SIZE * (g.pageShift - g.minShift) && size <= end
    requires RoomForAPage(tableAt, size, end, g.pageShift)
    requires g.tableLen == Estimate(size, g.pageShift) && g.start == StartOf(tableAt, size, g.pageShift)
    requires g.pages == Shr(end - g.start, g.pageShift)
    ensures g.Ok() && LaidOut(g, tableAt, size)
  {
    StartOk(tableAt, size, end, g.pageShift);
    CorrectionShrinks(size, g.pageShift - g.minShift, tableAt, end, g.pageShift);
    PagesBetween(g.start, end, g.pageShift);
  }

  lemma ScaleAtLeast(a: nat, k: nat)
    ensures a >= 2 ==> Scale(a, k) >= 2 * Pow2(k)
  {
    ScaleMonotone(2, a, k);
    ScaleAdd(1, 1, k);
    ScaleOne(k);
  }

  lemma OneDescriptor(size: nat, k: nat)
    requires Pow2(k) + DESC_SIZE <= size < 2 * (Pow2(k) + DESC_SIZE)
    ensures Estimate(size, k) == 1
  {
    EstimateBound(size, k);
    ScaleAtLeast(Estimate(size, k), k);
    ScaleZero(k);
  }

  lemma AlignedStays(n: nat, k: nat)
    ensures AlignUp(Scale(n, k), k) == Scale(n, k)
  {
    Join(n, Pow2(k) - 1, k);
  }

  lemma OnePage(k: nat)
    ensures Shr(Pow2(k), k) == 1
  {
    ScaleOne(k);
    Join(1, 0, k);
  }

  /** The opposite end: memory for the sentinels, one descriptor that ends on a
      page boundary and one whole page.  Every entry of the table is in use, and
      the pointer `end`, which `free` lets through, belongs to no entry: its
      descriptor would be the first bytes of the page. */
  lemma FullTableMissesTheEnd(g: Geo, tableAt: nat, n: nat)
    requires g.ParamsOk() && 1 <= n && g.pages == g.tableLen == 1
    requires 0 < tableAt && tableAt + DESC_SIZE == g.start == Scale(n, g.pageShift)
    requires g.end == g.start + g.PageSize() <= ALL_ONES
    requires DESC_SIZE * (g.pageShift - g.minShift) < g.PageSize() && DESC_SIZE * (g.pageShift - g.minShift) <= tableAt
    ensures var size := g.end - tableAt + DESC_SIZE * (g.pageShift - g.minShift);
            && RoomForAPage(tableAt, size, g.end, g.pageShift)
            && g.Ok() && LaidOut(g, tableAt, size)
    ensures PageOf(g, g.end) == g.tableLen && tableAt + DESC_SIZE * PageOf(g, g.end) == g.start
  {
    var size := g.end - tableAt + DESC_SIZE * (g.pageShift - g.minShift);
    OneDescriptor(size, g.pageShift);
    AlignedStays(n, g.pageShift);
    OnePage(g.pageShift);
    LayoutOk(g, tableAt, size, g.end);
  }

  /** Such a pool: 4336 bytes after the header, 4096-byte pages. */
  lemma OnePagePool()
    ensures var g := Geo(12, 3, 1, 1, 8192, 12288);
            && g.Ok() && LaidOut(g, 8168, 12288 - 8168 + DESC_SIZE * 9)
            && PageOf(g, g.end) == g.tableLen
  {
    PageOf12();
    ScaleIsProduct(2, 12);
    FullTableMissesTheEnd(Geo(12, 3, 1, 1, 8192, 12288), 8168, 2);
  }

  /** The arithmetic of `ncx_slab_init`: estimate, alignment, correction. */
  method Layout(pool: nat, header: nat, end: Word, minShift: nat, pageShift: nat) returns (g: Geo, m: int)
    requires 6 <= pageShift <= 16 && minShift < pageShift && pageShift <= 2 * minShift + 7
    requires 0 < pool
    requires var tableAt := pool + header + DESC_SIZE * (pageShift - minShift);
             tableAt <= end && RoomForAPage(tableAt, end - (pool + header), end, pageShift)
    ensures g.Ok() && g.pageShift == pageShift && g.minShift == minShift && g.end == end
    ensures LaidOut(g, pool + header + DESC_SIZE * (pageShift - minShift), end - (pool + header))
    ensures m >= 0 && g.pages == g.tableLen - m && g.tableLen <= ALL_ONES
  {
    var p := pool + header;
    var size := end - p;
    var n := pageShift - minShift;
    p := p + n * DESC_SIZE;
    var pages := Estimate(size, pageShift);
    StartOk(p, size, end, pageShift);
    var start := And(p + pages * DESC_SIZE + (Pow2(pageShift) - 1), Not(Pow2(pageShift) - 1));
    var fitting := Fitting(start, end, pageShift);
    CorrectionShrinks(size, n, p, end, pageShift);
    m := pages - fitting;
    g := Geo(pageShift, minShift, if m > 0 then pages - m else pages, pages, start, end);
    LayoutOk(g, p, size, end);
  }
}
