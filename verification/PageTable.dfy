/** The abstract page table behind the slab allocator: what every page is used
    for, and which pages are on which circular list, as plain values.

    The functions here say what an allocation or a free does to that state
    without mentioning descriptors, masks or links; module SlabPool proves that
    the descriptor code computes them.  The invariant `Inv` is proved to
    survive every step. */
module PageTable {
  import opened Words
  import opened Lists

  // ------------------------------------------------------------- geometry

  /** A pool after initialisation: 2^pageShift bytes per page, `pages` usable
      pages starting at address `start`, a descriptor table with `tableLen`
      entries (the initial estimate, of which the first `pages` are used). */
  datatype Geo = Geo(pageShift: nat, minShift: nat, pages: nat, tableLen: nat, start: nat, end: nat) {

    function PageSize(): nat { Pow2(pageShift) }

    /** Chunks of this size fill a page with exactly 64 of them. */
    function ExactShift(): nat
      requires pageShift >= 6
    {
      pageShift - 6
    }

    /** Requests from this size on are served in whole pages. */
    function MaxSize(): nat { PageSize() / 2 }

    /** What the arithmetic of the code needs of its two parameters: a shift
        fits the 4-bit field of a BIG descriptor, the exact size is not zero,
        and the reserved part of a SMALL page fits an `int` shift. */
    predicate ParamsOk() {
      6 <= pageShift <= 16 && minShift < pageShift && pageShift <= 2 * minShift + 7
    }

    predicate Ok() {
      && ParamsOk()
      && 1 <= pages <= tableLen
      && 0 < start && Low(start, pageShift) == 0
      && start + Scale(pages, pageShift) <= end < start + Scale(pages + 1, pageShift)
      && end <= ALL_ONES
    }

    predicate IsClass(shift: nat) {
      minShift <= shift < pageShift
    }

    /** Chunks in a page of the given class. */
    function Chunks(shift: nat): nat
      requires shift < pageShift
    {
      Pow2(pageShift - shift)
    }

    /** Chunks a SMALL page keeps for its own bitmap; the other two classes
        keep their bitmap in the descriptor. */
    function Reserved(shift: nat): nat
      requires shift < pageShift && pageShift >= 6
    {
      if shift < ExactShift() then
        var n := Shr(Chunks(shift) / 8, shift);
        if n == 0 then 1 else n
      else 0
    }

    function RingCount(): nat
      requires minShift < pageShift
    {
      1 + pageShift - minShift
    }
  }

  lemma EightTimes(e: nat)
    ensures Pow2(e + 3) == 8 * Pow2(e)
  {
    ScalePow2(e, 3);
    ScaleThree(Pow2(e));
  }

  /** The bitmap of 2^d bits takes 2^(d-3) bytes; in chunks of 2^shift bytes
      that is either an exact number of chunks or less than one. */
  lemma ReservedQuotient(d: nat, shift: nat)
    requires 7 <= d <= shift + 7
    ensures Pow2(d) % 64 == 0
    ensures var n := Shr(Pow2(d) / 8, shift);
            n <= 16 && Pow2(d) <= 8 * Scale(if n == 0 then 1 else n, shift)
  {
    var e := d - 3;
    EightTimes(e);
    EightTimes(e - 3);
    ShrPow2(e, shift);
    if e >= shift {
      ScalePow2(e - shift, shift);
      Pow2Monotone(e - shift, 4);
      SmallPowers();
    } else {
      Pow2Monotone(e, shift);
      ScaleOne(shift);
    }
  }

  /** The bounds on the reservation: it covers the bitmap bytes, it leaves at
      least two chunks to hand out, and the mask of the reserved chunks plus
      one, `(2 << n) - 1`, stays far inside an int. */
  lemma ReservedBounds(g: Geo, shift: nat)
    requires g.ParamsOk() && g.IsClass(shift)
    ensures g.Reserved(shift) + 2 <= g.Chunks(shift)
    ensures g.Reserved(shift) <= 16
    ensures shift >= g.ExactShift() ==> g.Chunks(shift) <= 64
    ensures shift == g.ExactShift() ==> g.Chunks(shift) == 64
    ensures shift > g.ExactShift() ==> g.Chunks(shift) <= 32
    ensures shift < g.ExactShift() ==>
              && g.Chunks(shift) >= 128 && g.Chunks(shift) % 64 == 0
              && g.Chunks(shift) <= 8 * Scale(g.Reserved(shift), shift)
  {
    var d := g.pageShift - shift;
    SmallPowers();
    if shift >= g.ExactShift() {
      Pow2Monotone(1, d);
      Pow2Monotone(d, 6);
      if shift > g.ExactShift() { Pow2Monotone(d, 5); }
    } else {
      Pow2Monotone(7, d);
      ReservedQuotient(d, shift);
    }
  }

  /** It is the least reservation, of at least one chunk, that covers them. */
  lemma ReservedLeast(g: Geo, shift: nat, r: nat)
    requires g.ParamsOk() && g.IsClass(shift) && shift < g.ExactShift()
    requires 1 <= r && g.Chunks(shift) <= 8 * Scale(r, shift)
    ensures 1 <= g.Reserved(shift) <= r
  {
    var d := g.pageShift - shift;
    var n := Shr(Pow2(d) / 8, shift);
    Split(Pow2(d) / 8, shift);
    ScaleMonotone(r, n, shift);
  }

  /** The chunks fill the page.  Up to 64 of them none is reserved, beyond that
      as few as cover the bitmap of a bit each, and at least one. */
  lemma ReservedIs(g: Geo, shift: nat)
    requires g.ParamsOk() && g.IsClass(shift)
    ensures Scale(g.Chunks(shift), shift) == g.PageSize()
    ensures g.Chunks(shift) <= 64 ==> g.Reserved(shift) == 0
    ensures g.Chunks(shift) > 64 ==>
              && 1 <= g.Reserved(shift) && g.Chunks(shift) <= 8 * Scale(g.Reserved(shift), shift)
              && forall r: nat | 1 <= r && g.Chunks(shift) <= 8 * Scale(r, shift) :: g.Reserved(shift) <= r
  {
    ReservedBounds(g, shift);
    ScalePow2(g.pageShift - shift, shift);
    if shift < g.ExactShift() {
      forall r: nat | 1 <= r && g.Chunks(shift) <= 8 * Scale(r, shift)
        ensures 1 <= g.Reserved(shift) <= r
      {
        ReservedLeast(g, shift, r);
      }
    }
  }

  // ---------------------------------------------------------------- pages

  /** What a page is used for.  `FreePart` and `BlockPart` name the first page
      of the run they belong to, so every page has exactly one owner. */
  datatype Kind =
    | Free(len: nat)
    | FreePart(head: int)
    | Block(len: nat)
    | BlockPart(head: int)
    | Slab(shift: nat, used: seq<bool>)

  /** A page of this kind starts a run. */
  predicate Head(k: Kind) {
    !k.FreePart? && !k.BlockPart?
  }

  predicate Full(used: seq<bool>) {
    forall c | 0 <= c < |used| :: used[c]
  }

  /** No chunk but the reserved ones is in use. */
  predicate Empty(used: seq<bool>, reserved: nat) {
    forall c | reserved <= c < |used| :: !used[c]
  }

  /** The lowest chunk not in use. */
  function FirstClear(used: seq<bool>): (c: nat)
    requires !Full(used)
    ensures c < |used| && !used[c]
    ensures forall i | 0 <= i < c :: used[i]
  {
    if !used[0] then 0
    else
      assert exists c :: 0 <= c < |used| && !used[c];
      assert exists c :: 0 <= c < |used[1..]| && !used[1..][c] by {
        var c :| 0 <= c < |used| && !used[c];
        assert !used[1..][c - 1];
      }
      1 + FirstClear(used[1..])
  }

  /** Pages and lists.  `rings[0]` is the free list; `rings[1 + i]` is the list
      of size class minShift + i. */
  datatype Table = Table(kinds: seq<Kind>, rings: seq<seq<int>>)

  /** The list a page of this kind belongs on, or -1: a free run is on the free
      list, a slab page is on its class list iff it has a free chunk. */
  function RingOf(g: Geo, k: Kind): int {
    match k
    case Free(_) => 0
    case Slab(s, used) => if Full(used) then -1 else 1 + s - g.minShift
    case _ => -1
  }

  predicate KindOk(g: Geo, kinds: seq<Kind>, i: int)
    requires g.ParamsOk()
    requires 0 <= i < |kinds|
  {
    match kinds[i]
    case Free(len) => 1 <= len && i + len <= |kinds| && forall j | i < j < i + len :: kinds[j] == FreePart(i)
    case Block(len) => 1 <= len && i + len <= |kinds| && forall j | i < j < i + len :: kinds[j] == BlockPart(i)
    case FreePart(h) => 0 <= h < i && kinds[h].Free? && i < h + kinds[h].len
    case BlockPart(h) => 0 <= h < i && kinds[h].Block? && i < h + kinds[h].len
    case Slab(s, used) =>
      && g.IsClass(s) && |used| == g.Chunks(s)
      && forall c | 0 <= c < g.Reserved(s) && c < |used| :: used[c]
  }

  /** The table partitions exactly into free runs, blocks and slab pages. */
  predicate Tiled(g: Geo, kinds: seq<Kind>)
    requires g.ParamsOk()
  {
    |kinds| == g.pages && forall i | 0 <= i < |kinds| :: KindOk(g, kinds, i)
  }

  predicate RingOk(g: Geo, kinds: seq<Kind>, l: seq<int>, r: int) {
    && NoDup(l)
    && (forall p | p in l :: 0 <= p < |kinds| && RingOf(g, kinds[p]) == r)
    && (forall p {:trigger RingOf(g, kinds[p])} | 0 <= p < |kinds| && RingOf(g, kinds[p]) == r :: p in l)
  }

  predicate RingsOk(g: Geo, t: Table)
    requires g.ParamsOk()
  {
    && |t.rings| == g.RingCount()
    && forall r {:trigger RingOk(g, t.kinds, t.rings[r], r)} | 0 <= r < |t.rings| :: RingOk(g, t.kinds, t.rings[r], r)
  }

  predicate Emptied(g: Geo, k: Kind)
    requires g.ParamsOk()
  {
    k.Slab? && g.IsClass(k.shift) && Empty(k.used, g.Reserved(k.shift))
  }

  /** A slab page other than `but` holds at least one chunk that is not
      reserved: an emptied page is given back at once. */
  predicate NoEmptySlab(g: Geo, kinds: seq<Kind>, but: int)
    requires g.ParamsOk()
  {
    forall p {:trigger Emptied(g, kinds[p])} | 0 <= p < |kinds| && p != but :: !Emptied(g, kinds[p])
  }

  predicate Shape(g: Geo, t: Table)
    requires g.ParamsOk()
  {
    Tiled(g, t.kinds) && RingsOk(g, t)
  }

  predicate Inv(g: Geo, t: Table)
    requires g.ParamsOk()
  {
    Shape(g, t) && NoEmptySlab(g, t.kinds, -1)
  }

  // ---------------------------------------------------------- page runs

  /** The pages of a fresh pool: one free run. */
  function InitialTable(g: Geo): Table
    requires g.Ok()
  {
    Table(seq(g.pages, i => if i == 0 then Free(g.pages) else FreePart(0)),
          seq(g.RingCount(), r => if r == 0 then [0] else []))
  }

  lemma InitialTableOk(g: Geo)
    requires g.Ok()
    ensures Inv(g, InitialTable(g))
  {
    var t := InitialTable(g);
    assert t.rings[0] == [0];
    forall r | 0 <= r < |t.rings|
      ensures RingOk(g, t.kinds, t.rings[r], r)
    {
      if r == 0 {
        assert 0 in t.rings[0];
      }
    }
  }

  predicate AllFree(kinds: seq<Kind>, l: seq<int>) {
    forall i | 0 <= i < |l| :: 0 <= l[i] < |kinds| && kinds[l[i]].Free?
  }

  /** Position on the free list of the first run with at least k pages, or the
      length of the list. */
  function FirstFit(kinds: seq<Kind>, l: seq<int>, k: nat): (j: nat)
    requires AllFree(kinds, l)
    ensures j <= |l|
    ensures j < |l| ==> kinds[l[j]].len >= k
    ensures forall i | 0 <= i < j :: kinds[l[i]].len < k
  {
    if l == [] || kinds[l[0]].len >= k then 0
    else 1 + FirstFit(kinds, l[1..], k)
  }

  /** The first k pages of the free run at `page` become a block; what remains
      of the run, if anything, is a free run of its own. */
  function CarveKinds(kinds: seq<Kind>, page: int, k: nat): (r: seq<Kind>)
    requires 0 <= page < |kinds| && kinds[page].Free?
    requires 1 <= k <= kinds[page].len
    ensures |r| == |kinds|
  {
    var len := kinds[page].len;
    seq(|kinds|, i requires 0 <= i < |kinds| =>
      if i == page then Block(k)
      else if page < i < page + k then BlockPart(page)
      else if i == page + k && k < len then Free(len - k)
      else if page + k < i < page + len then FreePart(page + k)
      else kinds[i])
  }

  /** The run of k pages at `page` becomes a free run. */
  function ReleaseKinds(kinds: seq<Kind>, page: int, k: nat): (r: seq<Kind>)
    ensures |r| == |kinds|
  {
    seq(|kinds|, i requires 0 <= i < |kinds| =>
      if i == page then Free(k)
      else if page < i < page + k then FreePart(page)
      else kinds[i])
  }

  function Carve(t: Table, j: nat, k: nat): Table
    requires |t.rings| > 0 && AllFree(t.kinds, t.rings[0])
    requires j < |t.rings[0]| && 1 <= k <= t.kinds[t.rings[0][j]].len
  {
    var free := t.rings[0];
    var page := free[j];
    Table(CarveKinds(t.kinds, page, k),
          t.rings[0 := if t.kinds[page].len > k then free[j := page + k] else RemoveAt(free, j)])
  }

  /** Pages in the run that starts at a page of this kind. */
  function Span(k: Kind): nat {
    match k
    case Free(len) => len
    case Block(len) => len
    case _ => 1
  }

  /** Give back the run that starts at `page`: it leaves its list, if it is on
      one, and becomes the first run of the free list. */
  function Release(g: Geo, t: Table, page: int): Table
    requires g.ParamsOk() && RingsOk(g, t)
    requires 0 <= page < |t.kinds|
  {
    var r := RingOf(g, t.kinds[page]);
    assert 0 <= r < |t.rings| ==> RingOk(g, t.kinds, t.rings[r], r);
    var rings := if 0 <= r < |t.rings| then t.rings[r := Without(t.rings[r], page)] else t.rings;
    Table(ReleaseKinds(t.kinds, page, Span(t.kinds[page])), rings[0 := [page] + rings[0]])
  }

  lemma FreeListIsFree(g: Geo, t: Table)
    requires g.ParamsOk() && Shape(g, t)
    ensures AllFree(t.kinds, t.rings[0])
  {
    var l := t.rings[0];
    assert RingOk(g, t.kinds, l, 0);
    forall i | 0 <= i < |l|
      ensures 0 <= l[i] < |t.kinds| && t.kinds[l[i]].Free?
    {
      assert l[i] in l;
      assert KindOk(g, t.kinds, l[i]);
    }
  }

  lemma CarveTiled(g: Geo, kinds: seq<Kind>, page: int, k: nat)
    requires g.ParamsOk() && Tiled(g, kinds)
    requires 0 <= page < |kinds| && kinds[page].Free? && 1 <= k <= kinds[page].len
    ensures Tiled(g, CarveKinds(kinds, page, k))
  {
    var r := CarveKinds(kinds, page, k);
    var len := kinds[page].len;
    assert KindOk(g, kinds, page);
    forall i | 0 <= i < |r|
      ensures KindOk(g, r, i)
    {
      assert KindOk(g, kinds, i);
    }
  }

  /** Free runs after a cut: the remainder, if any, for the run cut. */
  lemma CarveFree(g: Geo, kinds: seq<Kind>, page: int, k: nat)
    requires g.ParamsOk() && Tiled(g, kinds)
    requires 0 <= page < |kinds| && kinds[page].Free? && 1 <= k <= kinds[page].len
    ensures var u, len := CarveKinds(kinds, page, k), kinds[page].len;
            && (k < len ==> page + k < |kinds| && RingOf(g, kinds[page + k]) == -1)
            && forall p {:trigger RingOf(g, u[p])} | 0 <= p < |kinds| ::
                 RingOf(g, u[p]) == 0 <==> (RingOf(g, kinds[p]) == 0 && p != page) || (k < len && p == page + k)
  {
    assert KindOk(g, kinds, page);
  }

  lemma CutRing(g: Geo, kinds: seq<Kind>, l: seq<int>, j: nat, k: nat)
    requires g.ParamsOk() && Tiled(g, kinds) && RingOk(g, kinds, l, 0)
    requires j < |l| && 0 <= l[j] < |kinds| && kinds[l[j]].Free? && 1 <= k < kinds[l[j]].len
    ensures RingOk(g, CarveKinds(kinds, l[j], k), l[j := l[j] + k], 0)
  {
    CarveFree(g, kinds, l[j], k);
    assert l[j] + k !in l;
    ReplaceMembers(l, j, l[j] + k);
    var u, m := CarveKinds(kinds, l[j], k), l[j := l[j] + k];
    forall p | p in m
      ensures 0 <= p < |u| && RingOf(g, u[p]) == 0
    {
      assert p == l[j] + k || (p in l && p != l[j]);
    }
  }

  lemma TakeRing(g: Geo, kinds: seq<Kind>, l: seq<int>, j: nat, k: nat)
    requires g.ParamsOk() && Tiled(g, kinds) && RingOk(g, kinds, l, 0)
    requires j < |l| && 0 <= l[j] < |kinds| && kinds[l[j]].Free? && 1 <= k == kinds[l[j]].len
    ensures RingOk(g, CarveKinds(kinds, l[j], k), RemoveAt(l, j), 0)
  {
    CarveFree(g, kinds, l[j], k);
    RemoveAtMembers(l, j);
  }

  lemma CarveRingOf(g: Geo, t: Table, j: nat, k: nat, r: nat)
    requires g.ParamsOk() && Shape(g, t)
    requires j < |t.rings[0]| && AllFree(t.kinds, t.rings[0])
    requires 1 <= k <= t.kinds[t.rings[0][j]].len
    requires 0 < r
    ensures forall p | 0 <= p < |t.kinds| ::
              RingOf(g, Carve(t, j, k).kinds[p]) == r <==> RingOf(g, t.kinds[p]) == r
  {
    assert KindOk(g, t.kinds, t.rings[0][j]);
  }

  lemma CarveRing(g: Geo, t: Table, j: nat, k: nat, r: nat)
    requires g.ParamsOk() && Shape(g, t)
    requires j < |t.rings[0]| && AllFree(t.kinds, t.rings[0])
    requires 1 <= k <= t.kinds[t.rings[0][j]].len
    requires r < |t.rings|
    ensures RingOk(g, Carve(t, j, k).kinds, Carve(t, j, k).rings[r], r)
  {
    assert RingOk(g, t.kinds, t.rings[r], r);
    if r == 0 {
      if t.kinds[t.rings[0][j]].len > k {
        CutRing(g, t.kinds, t.rings[0], j, k);
      } else {
        TakeRing(g, t.kinds, t.rings[0], j, k);
      }
    } else {
      assert Carve(t, j, k).rings[r] == t.rings[r];
      CarveRingOf(g, t, j, k, r);
    }
  }

  lemma CarveKeeps(g: Geo, t: Table, j: nat, k: nat)
    requires g.ParamsOk() && Shape(g, t)
    requires j < |t.rings[0]| && AllFree(t.kinds, t.rings[0])
    requires 1 <= k <= t.kinds[t.rings[0][j]].len
    ensures Shape(g, Carve(t, j, k))
    ensures NoEmptySlab(g, t.kinds, -1) ==> NoEmptySlab(g, Carve(t, j, k).kinds, -1)
  {
    CarveTiled(g, t.kinds, t.rings[0][j], k);
    forall r: nat | r < |t.rings|
      ensures RingOk(g, Carve(t, j, k).kinds, Carve(t, j, k).rings[r], r)
    {
      CarveRing(g, t, j, k, r);
    }
  }

  lemma ReleaseTiled(g: Geo, kinds: seq<Kind>, page: int)
    requires g.ParamsOk() && Tiled(g, kinds)
    requires 0 <= page < |kinds| && !kinds[page].FreePart? && !kinds[page].BlockPart?
    ensures Tiled(g, ReleaseKinds(kinds, page, Span(kinds[page])))
  {
    var k := Span(kinds[page]);
    var r := ReleaseKinds(kinds, page, k);
    assert KindOk(g, kinds, page);
    forall i | 0 <= i < |r|
      ensures KindOk(g, r, i)
    {
      assert KindOk(g, kinds, i);
    }
  }

  lemma ReleaseKeeps(g: Geo, t: Table, page: int)
    requires g.ParamsOk() && Shape(g, t)
    requires 0 <= page < |t.kinds| && !t.kinds[page].FreePart? && !t.kinds[page].BlockPart?
    ensures Shape(g, Release(g, t, page))
    ensures NoEmptySlab(g, t.kinds, page) ==> NoEmptySlab(g, Release(g, t, page).kinds, -1)
  {
    var u := Release(g, t, page);
    var k := t.kinds[page];
    ReleaseTiled(g, t.kinds, page);
    assert KindOk(g, t.kinds, page);
    var own := RingOf(g, k);
    forall r | 0 <= r < |u.rings|
      ensures RingOk(g, u.kinds, u.rings[r], r)
    {
      assert RingOk(g, t.kinds, t.rings[r], r);
      if r == own {
        RemoveAtMembers(t.rings[r], IndexOf(t.rings[r], page));
      }
    }
  }
}
