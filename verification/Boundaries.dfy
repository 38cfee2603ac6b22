/** Page runs are split but never joined again: the boundaries between runs are
    only ever refined. */
module Boundaries {
  import opened Words
  import opened PageTable
  import opened Chunks
  import opened Allocator
  import opened SlabHeap
  import opened Usage

  ghost predicate KeepsHeads(a: seq<Kind>, b: seq<Kind>) {
    |a| == |b| && forall i {:trigger Head(b[i])} | 0 <= i < |a| && Head(a[i]) :: Head(b[i])
  }

  lemma CarveKeepsHeads(g: Geo, kinds: seq<Kind>, page: int, k: nat)
    requires g.ParamsOk() && Tiled(g, kinds)
    requires 0 <= page < |kinds| && kinds[page].Free? && 1 <= k <= kinds[page].len
    ensures KeepsHeads(kinds, CarveKinds(kinds, page, k))
  {
    assert KindOk(g, kinds, page);
  }

  lemma ReleaseKeepsHeads(g: Geo, kinds: seq<Kind>, page: int)
    requires g.ParamsOk() && Tiled(g, kinds)
    requires 0 <= page < |kinds| && Head(kinds[page])
    ensures KeepsHeads(kinds, ReleaseKinds(kinds, page, Span(kinds[page])))
  {
    assert KindOk(g, kinds, page);
  }

  lemma RunKeepsHeadsOf(g: Geo, t: Table, k: nat)
    requires g.ParamsOk() && Inv(g, t) && k >= 1
    ensures KeepsHeads(t.kinds, AllocRun(g, t, k).0.kinds)
  {
    FreeListIsFree(g, t);
    var j := FirstFit(t.kinds, t.rings[0], k);
    if j < |t.rings[0]| { CarveKeepsHeads(g, t.kinds, t.rings[0][j], k); }
  }

  lemma AllocKeepsHeads(g: Geo, t: Table, size: nat)
    requires g.ParamsOk() && Inv(g, t)
    ensures KeepsHeads(t.kinds, Alloc(g, t, size).0.kinds)
  {
    if size >= g.MaxSize() {
      RoundUpPositive(g, size);
      RunKeepsHeadsOf(g, t, PagesFor(g, size));
    } else {
      var shift := ClassFor(g, size);
      if t.rings[1 + shift - g.minShift] != [] {
        FirstOnRing(g, t, shift);
      } else {
        RunKeepsHeadsOf(g, t, 1);
        AllocRunKeeps(g, t, 1);
      }
    }
  }

  lemma DeallocKeepsHeads(g: Geo, t: Table, p: int)
    requires g.ParamsOk() && Inv(g, t) && MayFree(g, t, p)
    ensures KeepsHeads(t.kinds, Dealloc(g, t, p).kinds)
  {
    if p >= g.start && p <= g.end && PageOf(g, p) < |t.kinds| {
      var page, off := PageOf(g, p), OffsetOf(g, p);
      assert KindOk(g, t.kinds, page);
      if Head(t.kinds[page]) {
        ReleaseKeepsHeads(g, t.kinds, page);
      }
      if t.kinds[page].Slab? {
        var s := t.kinds[page].shift;
        AddressParts(g, p);
        ChunkOfOffset(g, s, off);
        if Low(off, s) == 0 && t.kinds[page].used[Shr(off, s)] {
          var u := ClearChunk(g, t, page, Shr(off, s));
          ClearChunkKeeps(g, t, page, Shr(off, s));
          ReleaseKeepsHeads(g, u.kinds, page);
        }
      }
    }
  }

  /** No step of any run erases a boundary. */
  lemma {:induction false} RunKeepsBoundaries(g: Geo, t: Table, ops: seq<Op>)
    requires g.ParamsOk() && Inv(g, t) && RunOk(g, t, ops)
    ensures KeepsHeads(t.kinds, Run(g, t, ops).0.kinds)
    decreases |ops|
  {
    if ops != [] {
      StepKeeps(g, t, ops[0]);
      match ops[0] {
        case AllocOp(size) => AllocKeepsHeads(g, t, size);
        case FreeOp(p) => DeallocKeepsHeads(g, t, p);
      }
      var u := Step(g, t, ops[0]).0;
      RunKeepsBoundaries(g, u, ops[1..]);
      assert KeepsHeads(u.kinds, Run(g, u, ops[1..]).0.kinds);
    }
  }

  /** The first page of the run that page i belongs to. */
  function OwnerOf(kinds: seq<Kind>, i: nat): int
    requires i < |kinds|
  {
    match kinds[i]
    case FreePart(h) => h
    case BlockPart(h) => h
    case _ => i
  }

  /** If every boundary of t is one of u, every run of u lies inside a run of t. */
  lemma RunsNest(g: Geo, t: seq<Kind>, u: seq<Kind>, i: nat)
    requires g.ParamsOk() && Tiled(g, t) && Tiled(g, u) && KeepsHeads(t, u)
    requires i < |u| && Head(u[i])
    ensures var h := OwnerOf(t, i);
            && 0 <= h <= i && Head(t[h])
            && i + Span(u[i]) <= h + Span(t[h])
  {
    var h := OwnerOf(t, i);
    assert KindOk(g, t, i);
    assert KindOk(g, t, h);
    var next := h + Span(t[h]);
    NextHead(g, t, h);
    assert KindOk(g, u, i);
    if next < |u| {
      assert Head(t[next]);
      assert Head(u[next]);
    }
  }

  /** After any run, a page request can only be served if some run of the
      earlier table was that long: free runs never grow beyond what was once
      one run. */
  lemma NeverCoalesces(g: Geo, t: Table, ops: seq<Op>, k: nat)
    requires g.ParamsOk() && Inv(g, t) && RunOk(g, t, ops) && k >= 1
    requires AllocRun(g, Run(g, t, ops).0, k).1.Got?
    ensures exists h :: 0 <= h < |t.kinds| && Head(t.kinds[h]) && k <= Span(t.kinds[h])
  {
    var u := Run(g, t, ops).0;
    RunKeepsBoundaries(g, t, ops);
    FreeListIsFree(g, u);
    var at := u.rings[0][FirstFit(u.kinds, u.rings[0], k)];
    RunsNest(g, t.kinds, u.kinds, at);
    var h := OwnerOf(t.kinds, at);
    assert Head(t.kinds[h]);
  }

  /** Once page i starts a run, no later block reaches across it. */
  lemma CutsBind(g: Geo, t: Table, ops: seq<Op>, i: nat, k: nat)
    requires g.ParamsOk() && Inv(g, t) && RunOk(g, t, ops) && k >= 1
    requires i < |t.kinds| && Head(t.kinds[i])
    ensures var o := AllocRun(g, Run(g, t, ops).0, k).1;
            o.Got? ==> o.at >= i || o.at + k <= i
  {
    var u := Run(g, t, ops).0;
    RunKeepsBoundaries(g, t, ops);
    assert Head(u.kinds[i]);
    FreeListIsFree(g, u);
    var j := FirstFit(u.kinds, u.rings[0], k);
    if j < |u.rings[0]| {
      assert KindOk(g, u.kinds, u.rings[0][j]);
    }
  }

  /** A fresh pool after one page was taken and given back. */
  ghost function SplitOnce(g: Geo): Table
    requires g.Ok() && g.pages >= 2 && Inv(g, InitialTable(g))
  {
    var t := InitialTable(g);
    var u := AllocRun(g, t, 1).0;
    AllocRunKeeps(g, t, 1);
    Release(g, u, 0)
  }

  lemma FreshServes(g: Geo)
    requires g.Ok()
    ensures Inv(g, InitialTable(g)) && AllocRun(g, InitialTable(g), g.pages).1.Got?
  {
    InitialTableOk(g);
    RunFitsIff(g, InitialTable(g), g.pages);
    LongestFreeIs(InitialTable(g).kinds, g.pages);
    assert InitialTable(g).kinds[0] == Free(g.pages);
  }

  lemma SplitOnceOk(g: Geo)
    requires g.Ok() && g.pages >= 2 && Inv(g, InitialTable(g))
    ensures Inv(g, SplitOnce(g)) && Live(g, SplitOnce(g)) == map[] && Head(SplitOnce(g).kinds[1])
  {
    var t := InitialTable(g);
    FreeListIsFree(g, t);
    assert t.rings[0] == [0] && t.kinds[0] == Free(g.pages);
    assert FirstFit(t.kinds, t.rings[0], 1) == 0;
    AllocRunKeeps(g, t, 1);
    var u := AllocRun(g, t, 1).0;
    assert u.kinds[0] == Block(1) && u.kinds[1] == Free(g.pages - 1);
    ReleaseKeeps(g, u, 0);
    var v := SplitOnce(g);
    assert forall i | 0 <= i < g.pages :: v.kinds[i].Free? || v.kinds[i].FreePart?;
  }

  lemma GotFits(g: Geo, t: Table, k: nat)
    requires g.ParamsOk() && Inv(g, t) && k >= 1
    ensures var o := AllocRun(g, t, k).1; o.Got? ==> o.at + k <= g.pages
  {
    FreeListIsFree(g, t);
    var j := FirstFit(t.kinds, t.rings[0], k);
    if j < |t.rings[0]| { assert KindOk(g, t.kinds, t.rings[0][j]); }
  }

  /** Fragmentation is for good: on a fresh pool of two pages or more, take one
      page and give it back.  Nothing is live, yet the request for all pages,
      which a fresh pool serves, fails then and after every further run. */
  lemma OneSplitIsForever(g: Geo, ops: seq<Op>)
    requires g.Ok() && g.pages >= 2
    ensures Inv(g, InitialTable(g)) && AllocRun(g, InitialTable(g), g.pages).1.Got?
    ensures (InitialTableOk(g);
             var t := SplitOnce(g);
             && Inv(g, t) && Live(g, t) == map[]
             && (RunOk(g, t, ops) ==> AllocRun(g, Run(g, t, ops).0, g.pages).1.Failed?))
  {
    InitialTableOk(g);
    FreshServes(g);
    SplitOnceOk(g);
    var t := SplitOnce(g);
    if RunOk(g, t, ops) {
      CutsBind(g, t, ops, 1, g.pages);
      GotFits(g, Run(g, t, ops).0, g.pages);
    }
  }

  // ------------------------------------------- when the whole pool comes back

  /** Only page 0 starts a run. */
  predicate Uncut(kinds: seq<Kind>) {
    forall i {:trigger Head(kinds[i])} | 0 < i < |kinds| :: !Head(kinds[i])
  }

  /** Then there is one run, of all pages, and with two pages or more it is no
      slab page. */
  lemma UncutIs(g: Geo, kinds: seq<Kind>)
    requires g.Ok() && Tiled(g, kinds)
    ensures Head(kinds[0])
    ensures Uncut(kinds) <==> Span(kinds[0]) == g.pages
    ensures Uncut(kinds) && g.pages >= 2 ==> forall i | 0 <= i < g.pages :: !kinds[i].Slab?
  {
    StartsWithHead(g, kinds);
    assert KindOk(g, kinds, 0);
    NextHead(g, kinds, 0);
    if g.pages >= 2 { assert KindOk(g, kinds, 1); }
  }

  /** With nothing live, the request for all pages is served exactly when no page
      but the first starts a run. */
  lemma WholePoolIff(g: Geo, t: Table)
    requires g.Ok() && Inv(g, t) && Live(g, t) == map[]
    ensures AllocRun(g, t, g.pages).1.Got? <==> Uncut(t.kinds)
  {
    NothingLeaks(g, t);
    UncutIs(g, t.kinds);
    RunFitsIff(g, t, g.pages);
    LongestFreeIs(t.kinds, g.pages);
    if g.pages <= LongestFree(t.kinds, g.pages) {
      var j :| 0 <= j < g.pages && t.kinds[j].Free? && t.kinds[j].len == LongestFree(t.kinds, g.pages);
      assert KindOk(g, t.kinds, j);
    }
  }

  lemma CarveUncut(g: Geo, kinds: seq<Kind>, k: nat)
    requires g.Ok() && Tiled(g, kinds) && Uncut(kinds) && kinds[0].Free? && 1 <= k <= g.pages
    requires k <= kinds[0].len
    ensures Uncut(CarveKinds(kinds, 0, k)) <==> k == g.pages
  {
    UncutIs(g, kinds);
    var u := CarveKinds(kinds, 0, k);
    assert KindOk(g, kinds, 0);
    if k < g.pages { assert Head(u[k]); }
  }

  lemma RunUncutStep(g: Geo, t: Table, k: nat)
    requires g.Ok() && Inv(g, t) && Uncut(t.kinds) && k >= 1
    ensures var (u, o) := AllocRun(g, t, k);
            && (o.Failed? ==> u == t)
            && (o.Got? ==> o.at == 0 && k <= g.pages && (Uncut(u.kinds) <==> k == g.pages))
  {
    FreeListIsFree(g, t);
    UncutIs(g, t.kinds);
    var j := FirstFit(t.kinds, t.rings[0], k);
    if j < |t.rings[0]| {
      var page := t.rings[0][j];
      assert Head(t.kinds[page]);
      CarveUncut(g, t.kinds, k);
    }
  }

  lemma NoSlabNoList(g: Geo, t: Table, shift: nat)
    requires g.Ok() && Inv(g, t) && Uncut(t.kinds) && g.pages >= 2 && g.IsClass(shift)
    ensures t.rings[1 + shift - g.minShift] == []
  {
    UncutIs(g, t.kinds);
    NoSlabNoRing(g, t, 1 + shift - g.minShift);
  }

  lemma ScaleSame(a: nat, b: nat, k: nat)
    ensures Scale(a, k) == Scale(b, k) <==> a == b
  {
    Join(a, 0, k);
    Join(b, 0, k);
  }

  lemma ChunkIsNotPool(g: Geo, shift: nat)
    requires g.Ok() && g.IsClass(shift)
    ensures Pow2(shift) < PageBytesOf(g)
  {
    Pow2Monotone(shift, g.pageShift - 1);
    ScaleMonotone(1, g.pages, g.pageShift);
    ScaleOne(g.pageShift);
  }

  lemma CutStays(a: seq<Kind>, b: seq<Kind>)
    requires KeepsHeads(a, b) && !Uncut(a)
    ensures !Uncut(b)
  {
    var i :| 0 < i < |a| && Head(a[i]);
    assert Head(b[i]);
  }

  /** A pool in one piece is cut by every allocation but that of all its pages. */
  lemma AllocUncut(g: Geo, t: Table, size: nat)
    requires g.Ok() && Inv(g, t) && Uncut(t.kinds) && g.pages >= 2
    ensures var (u, o) := Alloc(g, t, size);
            Uncut(u.kinds) <==> o.Failed? || Rounded(g, size) == PageBytesOf(g)
  {
    if size >= g.MaxSize() {
      RoundUpPositive(g, size);
      RunUncutStep(g, t, PagesFor(g, size));
      ScaleSame(PagesFor(g, size), g.pages, g.pageShift);
    } else {
      var shift := ClassFor(g, size);
      NoSlabNoList(g, t, shift);
      RunUncutStep(g, t, 1);
      ChunkIsNotPool(g, shift);
      var (u, o) := AllocRun(g, t, 1);
      if o.Got? {
        AllocRunKeeps(g, t, 1);
        CutStays(u.kinds, NewSlab(g, u, o.at, shift).kinds);
      }
    }
  }

  lemma DeallocUncut(g: Geo, t: Table, p: int)
    requires g.Ok() && Inv(g, t) && MayFree(g, t, p) && Uncut(t.kinds) && g.pages >= 2
    ensures Uncut(Dealloc(g, t, p).kinds)
  {
    UncutIs(g, t.kinds);
    if g.start <= p <= g.end && PageOf(g, p) < |t.kinds| {
      assert PageOf(g, p) != 0 ==> !Head(t.kinds[PageOf(g, p)]);
      assert KindOk(g, t.kinds, 0);
    }
  }

  predicate Whole(g: Geo, e: Event) {
    e.Allocated? ==> e.size == PageBytesOf(g)
  }

  predicate AllWhole(g: Geo, es: seq<Event>) {
    forall i | 0 <= i < |es| :: Whole(g, es[i])
  }

  /** A run from a pool in one piece leaves it in one piece exactly when every
      allocation that succeeded took all pages. */
  lemma {:induction false} RunUncut(g: Geo, t: Table, ops: seq<Op>)
    requires g.Ok() && Inv(g, t) && RunOk(g, t, ops) && Uncut(t.kinds) && g.pages >= 2
    ensures Uncut(Run(g, t, ops).0.kinds) <==> AllWhole(g, Run(g, t, ops).1)
    decreases |ops|
  {
    if ops != [] {
      StepKeeps(g, t, ops[0]);
      match ops[0] {
        case AllocOp(size) => AllocUncut(g, t, size);
        case FreeOp(p) => DeallocUncut(g, t, p);
      }
      var (u, e) := Step(g, t, ops[0]);
      var (v, es) := Run(g, u, ops[1..]);
      assert Run(g, t, ops) == (v, [e] + es);
      assert AllWhole(g, [e] + es) <==> Whole(g, e) && AllWhole(g, es) by {
        assert ([e] + es)[0] == e && ([e] + es)[1..] == es;
        assert forall i | 0 <= i < |es| :: ([e] + es)[i + 1] == es[i];
      }
      if Uncut(u.kinds) {
        RunUncut(g, u, ops[1..]);
      } else {
        RunKeepsBoundaries(g, u, ops[1..]);
        CutStays(u.kinds, v.kinds);
      }
    }
  }

  /** After any run of a fresh pool that ends with nothing live, the request for
      all pages is served exactly when every allocation in the run that succeeded
      took all pages, or there is only one page. */
  lemma ServedAgainIff(g: Geo, ops: seq<Op>)
    requires g.Ok() && Inv(g, InitialTable(g)) && RunOk(g, InitialTable(g), ops)
    requires Live(g, Run(g, InitialTable(g), ops).0) == map[]
    ensures var (u, es) := Run(g, InitialTable(g), ops);
            AllocRun(g, u, g.pages).1.Got? <==> g.pages == 1 || AllWhole(g, es)
  {
    var t := InitialTable(g);
    UncutIs(g, t.kinds);
    WholePoolIff(g, Run(g, t, ops).0);
    if g.pages >= 2 { RunUncut(g, t, ops); }
  }
}
