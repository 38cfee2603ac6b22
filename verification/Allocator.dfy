/** Allocation and release on the abstract page table, and what they mean for
    a caller: a map from addresses to block sizes. */
module Allocator {
  import opened Words
  import opened PageTable
  import opened Chunks

  // ------------------------------------------------------------ addresses

  /** Address of byte `off` of page `page`. */
  function Address(g: Geo, page: nat, off: nat): nat {
    g.start + Scale(page, g.pageShift) + off
  }

  function PageOf(g: Geo, p: nat): nat
    requires p >= g.start
  {
    Shr(p - g.start, g.pageShift)
  }

  function OffsetOf(g: Geo, p: nat): nat
    requires p >= g.start
  {
    Low(p - g.start, g.pageShift)
  }

  lemma AddressParts(g: Geo, p: nat)
    requires p >= g.start
    ensures p == Address(g, PageOf(g, p), OffsetOf(g, p))
    ensures OffsetOf(g, p) < g.PageSize()
  {
    Split(p - g.start, g.pageShift);
  }

  lemma AddressDecodes(g: Geo, page: nat, off: nat)
    requires off < g.PageSize()
    ensures Address(g, page, off) >= g.start
    ensures PageOf(g, Address(g, page, off)) == page
    ensures OffsetOf(g, Address(g, page, off)) == off
  {
    Join(page, off, g.pageShift);
  }

  /** Chunk c of a class-`shift` page starts inside the page. */
  lemma ChunkInPage(g: Geo, shift: nat, c: nat)
    requires shift < g.pageShift && c < g.Chunks(shift)
    ensures Scale(c, shift) + Pow2(shift) <= g.PageSize()
    ensures Shr(Scale(c, shift), shift) == c && Low(Scale(c, shift), shift) == 0
  {
    ScalePow2(g.pageShift - shift, shift);
    ScaleMonotone(c, g.Chunks(shift), shift);
    Join(c, 0, shift);
  }

  /** An offset in a page lies in one of the page's chunks. */
  lemma ChunkOfOffset(g: Geo, shift: nat, off: nat)
    requires shift < g.pageShift && off < g.PageSize()
    ensures Shr(off, shift) < g.Chunks(shift)
    ensures Low(off, shift) == 0 ==> off == Scale(Shr(off, shift), shift)
  {
    ScalePow2(g.pageShift - shift, shift);
    ShrBound(off, g.Chunks(shift), shift);
    Split(off, shift);
  }

  lemma PageInPool(g: Geo, page: nat)
    requires g.Ok() && page < g.pages
    ensures Address(g, page, g.PageSize()) <= g.end
  {
    ScaleMonotone(page, g.pages, g.pageShift);
  }

  // ---------------------------------------------------------- live blocks

  /** A block handed out starts at offset `off` of a page of kind `k`. */
  predicate LiveIn(g: Geo, k: Kind, off: nat)
    requires g.ParamsOk()
  {
    match k
    case Block(_) => off == 0
    case Slab(s, used) =>
      && g.IsClass(s)
      && Low(off, s) == 0
      && g.Reserved(s) <= Shr(off, s) < |used|
      && used[Shr(off, s)]
    case _ => false
  }

  function SizeIn(g: Geo, k: Kind): nat {
    match k
    case Block(len) => Scale(len, g.pageShift)
    case Slab(s, _) => Pow2(s)
    case _ => 0
  }

  predicate IsLive(g: Geo, t: Table, p: int)
    requires g.ParamsOk()
  {
    p >= g.start && PageOf(g, p) < |t.kinds| && LiveIn(g, t.kinds[PageOf(g, p)], OffsetOf(g, p))
  }

  /** The live map: address of every block handed out -> its rounded size. */
  ghost function Live(g: Geo, t: Table): map<int, nat>
    requires g.ParamsOk()
  {
    map p | g.start <= p <= g.end && IsLive(g, t, p) :: SizeIn(g, t.kinds[PageOf(g, p)])
  }

  lemma LiveInPool(g: Geo, t: Table, p: int)
    requires g.Ok() && |t.kinds| == g.pages && IsLive(g, t, p)
    ensures g.start <= p < g.end
    ensures p in Live(g, t)
  {
    AddressParts(g, p);
    PageInPool(g, PageOf(g, p));
  }

  // ----------------------------------------------------------- operations

  /** Whole pages needed for `size` bytes. */
  function PagesFor(g: Geo, size: nat): nat {
    Shr(size + g.PageSize() - 1, g.pageShift)
  }

  /** The smallest size class, from `s` up, whose chunks hold `size` bytes. */
  function ClassFrom(g: Geo, size: nat, s: nat): (r: nat)
    requires size < g.MaxSize() && s < g.pageShift
    ensures s <= r < g.pageShift && size <= Pow2(r)
    ensures r == s || Pow2(r - 1) < size
    decreases g.pageShift - s
  {
    if size <= Pow2(s) then s
    else
      assert g.PageSize() == 2 * Pow2(g.pageShift - 1);
      ClassFrom(g, size, s + 1)
  }

  function ClassFor(g: Geo, size: nat): nat
    requires g.ParamsOk() && size < g.MaxSize()
  {
    ClassFrom(g, size, g.minShift)
  }

  /** Bytes a request of this size really takes. */
  function Rounded(g: Geo, size: nat): nat
    requires g.ParamsOk()
  {
    if size >= g.MaxSize() then Scale(PagesFor(g, size), g.pageShift) else Pow2(ClassFor(g, size))
  }

  datatype Outcome = Failed | Got(at: nat)

  /** First fit over the free list; the table is unchanged on failure. */
  function AllocRun(g: Geo, t: Table, k: nat): (Table, Outcome)
    requires g.ParamsOk() && Shape(g, t) && k >= 1
  {
    FreeListIsFree(g, t);
    var j := FirstFit(t.kinds, t.rings[0], k);
    if j == |t.rings[0]| then (t, Failed) else (Carve(t, j, k), Got(t.rings[0][j]))
  }

  lemma AllocRunKeeps(g: Geo, t: Table, k: nat)
    requires g.ParamsOk() && Inv(g, t) && k >= 1
    ensures var (u, o) := AllocRun(g, t, k);
            && Inv(g, u)
            && (o.Got? ==> o.at < |t.kinds| && t.kinds[o.at].Free? && u.kinds[o.at] == Block(k)
                           && u.rings == t.rings[0 := u.rings[0]])
  {
    FreeListIsFree(g, t);
    var j := FirstFit(t.kinds, t.rings[0], k);
    if j < |t.rings[0]| {
      CarveKeeps(g, t, j, k);
    }
  }

  function AllocChunk(g: Geo, t: Table, shift: nat): (Table, Outcome)
    requires g.ParamsOk() && Inv(g, t) && g.IsClass(shift)
  {
    var r := 1 + shift - g.minShift;
    if t.rings[r] != [] then
      FirstOnRing(g, t, shift);
      var page := t.rings[r][0];
      (TakeChunk(t, r), Got(Address(g, page, Scale(FirstClear(t.kinds[page].used), shift))))
    else
      var (u, o) := AllocRun(g, t, 1);
      if o == Failed then (t, Failed)
      else
        AllocRunKeeps(g, t, 1);
        (NewSlab(g, u, o.at, shift), Got(Address(g, o.at, Scale(g.Reserved(shift), shift))))
  }

  lemma RoundUpPositive(g: Geo, size: nat)
    requires g.ParamsOk() && size >= g.MaxSize()
    ensures PagesFor(g, size) >= 1
    ensures size <= Scale(PagesFor(g, size), g.pageShift) < size + g.PageSize()
  {
    SmallPowers();
    Pow2Monotone(1, g.pageShift);
    Split(size + g.PageSize() - 1, g.pageShift);
    ScaleZero(g.pageShift);
  }

  function Alloc(g: Geo, t: Table, size: nat): (Table, Outcome)
    requires g.ParamsOk() && Inv(g, t)
  {
    if size >= g.MaxSize() then
      RoundUpPositive(g, size);
      var (u, o) := AllocRun(g, t, PagesFor(g, size));
      if o == Failed then (t, Failed) else (u, Got(Address(g, o.at, 0)))
    else
      AllocChunk(g, t, ClassFor(g, size))
  }

  /** A chunk the page keeps for its own bitmap. */
  predicate IsReserved(g: Geo, t: Table, p: int)
    requires g.ParamsOk()
  {
    && p >= g.start && PageOf(g, p) < |t.kinds|
    && var k := t.kinds[PageOf(g, p)];
       k.Slab? && g.IsClass(k.shift)
       && Low(OffsetOf(g, p), k.shift) == 0 && Shr(OffsetOf(g, p), k.shift) < g.Reserved(k.shift)
  }

  /** What may be passed to `free`: any pointer whose descriptor, if one is
      looked up, is in the table, except a chunk that holds a page's bitmap. */
  predicate MayFree(g: Geo, t: Table, p: int)
    requires g.ParamsOk()
  {
    (g.start <= p <= g.end ==> PageOf(g, p) < g.tableLen) && !IsReserved(g, t, p)
  }

  /** Every block handed out may be given back. */
  lemma LiveMayBeFreed(g: Geo, t: Table, p: int)
    requires g.Ok() && |t.kinds| == g.pages && p in Live(g, t)
    ensures MayFree(g, t, p)
  {
    LiveInPool(g, t, p);
  }

  function Dealloc(g: Geo, t: Table, p: int): Table
    requires g.ParamsOk() && Inv(g, t) && MayFree(g, t, p)
  {
    if p < g.start || p > g.end || PageOf(g, p) >= |t.kinds| then t
    else
      var page, off := PageOf(g, p), OffsetOf(g, p);
      match t.kinds[page]
      case Free(_) => if off == 0 then Release(g, t, page) else t
      case Block(_) => if off == 0 then Release(g, t, page) else t
      case FreePart(_) => t
      case BlockPart(_) => t
      case Slab(s, used) =>
        assert KindOk(g, t.kinds, page);
        AddressParts(g, p);
        ChunkOfOffset(g, s, off);
        if Low(off, s) == 0 && used[Shr(off, s)] then ReleaseChunk(g, t, page, Shr(off, s)) else t
  }

  /** The bounds check of `free` admits pointers up to and including `end`.
      The page number it computes lies in the descriptor table unless the table
      has no spare entry and the pointer is past the last whole page. */
  lemma LookupInTable(g: Geo, p: nat)
    requires g.Ok() && g.start <= p <= g.end
    ensures PageOf(g, p) < g.tableLen <==> g.pages < g.tableLen || p < Address(g, g.pages, 0)
  {
    AddressParts(g, p);
    ScaleMonotone(PageOf(g, p), g.pages, g.pageShift);
    ScaleMonotone(g.pages, PageOf(g, p), g.pageShift);
    ScaleMonotone(g.pages + 1, PageOf(g, p), g.pageShift);
  }

  // ------------------------------------------------- every step keeps Inv

  lemma AllocChunkKeeps(g: Geo, t: Table, shift: nat)
    requires g.ParamsOk() && Inv(g, t) && g.IsClass(shift)
    ensures Inv(g, AllocChunk(g, t, shift).0)
  {
    if t.rings[1 + shift - g.minShift] != [] {
      TakeChunkKeeps(g, t, shift);
    } else {
      AllocRunKeeps(g, t, 1);
      var (u, o) := AllocRun(g, t, 1);
      if o.Got? { NewSlabKeeps(g, u, o.at, shift); }
    }
  }

  lemma AllocKeeps(g: Geo, t: Table, size: nat)
    requires g.ParamsOk() && Inv(g, t)
    ensures Inv(g, Alloc(g, t, size).0)
  {
    if size >= g.MaxSize() {
      RoundUpPositive(g, size);
      AllocRunKeeps(g, t, PagesFor(g, size));
    } else {
      AllocChunkKeeps(g, t, ClassFor(g, size));
    }
  }

  lemma DeallocKeeps(g: Geo, t: Table, p: int)
    requires g.ParamsOk() && Inv(g, t) && MayFree(g, t, p)
    ensures Inv(g, Dealloc(g, t, p))
  {
    if p >= g.start && PageOf(g, p) < |t.kinds| {
      var page, off := PageOf(g, p), OffsetOf(g, p);
      assert KindOk(g, t.kinds, page);
      if t.kinds[page].Slab? {
        AddressParts(g, p);
        ChunkOfOffset(g, t.kinds[page].shift, off);
        if Low(off, t.kinds[page].shift) == 0 && t.kinds[page].used[Shr(off, t.kinds[page].shift)] {
          ReleaseChunkKeeps(g, t, page, Shr(off, t.kinds[page].shift));
        }
      } else if off == 0 && (t.kinds[page].Free? || t.kinds[page].Block?) {
        ReleaseKeeps(g, t, page);
      }
    }
  }

  // ------------------------------------------------------ the address map

  /** From t to u the blocks in the pages change by exactly one: `page`/`off`
      is new, everything else stays with its size. */
  ghost predicate GainsOne(g: Geo, t: Table, u: Table, page: nat, off: nat)
    requires g.ParamsOk()
  {
    && |t.kinds| == |u.kinds| && page < |u.kinds| && off < g.PageSize()
    && (forall i, o: nat | 0 <= i < |t.kinds| ::
          LiveIn(g, u.kinds[i], o) <==> LiveIn(g, t.kinds[i], o) || (i == page && o == off))
    && !LiveIn(g, t.kinds[page], off)
    && (forall i, o: nat | 0 <= i < |t.kinds| ::
          LiveIn(g, t.kinds[i], o) ==> SizeIn(g, u.kinds[i]) == SizeIn(g, t.kinds[i]))
  }

  lemma Minus(m: map<int, nat>, n: map<int, nat>, p: int, v: nat)
    requires p !in m && p in n && n[p] == v && n.Keys == m.Keys + {p}
    requires forall q | q in m :: n[q] == m[q]
    ensures n == m[p := v] && m == n - {p}
  {
    forall q | q in n
      ensures q == p || (q in m && n[q] == m[q])
    {
      assert q in m.Keys + {p};
    }
    forall q | q in m
      ensures q in n && n[q] == m[q]
    {
      assert q in n.Keys;
    }
  }

  lemma LiveGains(g: Geo, t: Table, u: Table, page: nat, off: nat)
    requires g.Ok() && |t.kinds| == g.pages && GainsOne(g, t, u, page, off)
    ensures var p := Address(g, page, off);
            && p !in Live(g, t)
            && Live(g, u) == Live(g, t)[p := SizeIn(g, u.kinds[page])]
            && Live(g, t) == Live(g, u) - {p}
  {
    var p := Address(g, page, off);
    AddressDecodes(g, page, off);
    LiveInPool(g, u, p);
    forall q: int | q >= g.start && q != p && PageOf(g, q) < g.pages
      ensures IsLive(g, u, q) == IsLive(g, t, q)
    {
      AddressParts(g, q);
    }
    Minus(Live(g, t), Live(g, u), p, SizeIn(g, u.kinds[page]));
  }

  lemma LiveSame(g: Geo, t: Table, u: Table)
    requires g.ParamsOk() && |t.kinds| == |u.kinds|
    requires forall i, o: nat | 0 <= i < |t.kinds| ::
               && (LiveIn(g, u.kinds[i], o) <==> LiveIn(g, t.kinds[i], o))
               && (LiveIn(g, t.kinds[i], o) ==> SizeIn(g, u.kinds[i]) == SizeIn(g, t.kinds[i]))
    ensures Live(g, u) == Live(g, t)
  {
  }

  /** Chunk c is the only chunk that starts at its offset. */
  lemma ChunkAt(g: Geo, shift: nat, c: nat, o: nat)
    requires shift < g.pageShift && c < g.Chunks(shift)
    ensures Low(o, shift) == 0 && Shr(o, shift) == c <==> o == Scale(c, shift)
  {
    ChunkInPage(g, shift, c);
    Split(o, shift);
  }

  lemma CarveGains(g: Geo, t: Table, j: nat, k: nat)
    requires g.ParamsOk() && Shape(g, t) && AllFree(t.kinds, t.rings[0])
    requires j < |t.rings[0]| && 1 <= k <= t.kinds[t.rings[0][j]].len
    ensures GainsOne(g, t, Carve(t, j, k), t.rings[0][j], 0)
  {
    assert KindOk(g, t.kinds, t.rings[0][j]);
  }

  lemma MarkGains(g: Geo, t: Table, u: Table, page: int, c: nat)
    requires g.ParamsOk() && Tiled(g, t.kinds)
    requires 0 <= page < |t.kinds| && t.kinds[page].Slab? && g.IsClass(t.kinds[page].shift)
    requires var k := t.kinds[page];
             && g.Reserved(k.shift) <= c < |k.used| && !k.used[c]
             && u.kinds == t.kinds[page := Slab(k.shift, k.used[c := true])]
    ensures GainsOne(g, t, u, page, Scale(c, t.kinds[page].shift))
  {
    var shift := t.kinds[page].shift;
    assert KindOk(g, t.kinds, page);
    ChunkInPage(g, shift, c);
    forall o: nat
      ensures LiveIn(g, u.kinds[page], o) <==> LiveIn(g, t.kinds[page], o) || o == Scale(c, shift)
    {
      ChunkAt(g, shift, c, o);
    }
  }
}
