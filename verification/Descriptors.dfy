/** What the descriptor table and the in-page bitmaps say about a page, and
    the effect of the allocator's writes on that reading. */
module Descriptors {
  import opened Words
  import opened Lists
  import opened PageTable
  import opened Rings

  const TAG_PAGE: nat := 0
  const TAG_BIG: nat := 1
  const TAG_EXACT: nat := 2
  const TAG_SMALL: nat := 3

  /** NCX_SLAB_PAGE_START */
  const PAGE_START: Word := 0x8000_0000_0000_0000
  /** NCX_SLAB_PAGE_BUSY and NCX_SLAB_BUSY */
  const BUSY: Word := ALL_ONES
  /** NCX_SLAB_SHIFT_MASK, NCX_SLAB_MAP_SHIFT and NCX_SLAB_MAP_MASK */
  const SHIFT_MASK: Word := 0xF
  const MAP_SHIFT: nat := 32
  const MAP_FIRST: Word := 0x1_0000_0000  // (uintptr_t) 1 << NCX_SLAB_MAP_SHIFT
  const MAP_MASK: Word := 0xFFFF_FFFF_0000_0000

  /** A zeroed descriptor. */
  const ZERO: Desc := Desc(0, NIL, NIL, TAG_PAGE)

  function ClassTag(g: Geo, shift: nat): nat
    requires g.ParamsOk()
  {
    if shift < g.ExactShift() then TAG_SMALL
    else if shift == g.ExactShift() then TAG_EXACT
    else TAG_BIG
  }

  /** Tag of the pages on list r. */
  function RingTag(g: Geo, r: nat): nat
    requires g.ParamsOk()
  {
    if r == 0 then TAG_PAGE else ClassTag(g, r - 1 + g.minShift)
  }

  /** Bitmap of a SMALL page: 64 chunks a word, in the page itself. */
  predicate SmallMap(w: seq<Word>, used: seq<bool>) {
    && |used| % 64 == 0 && |used| <= 64 * |w|
    && forall n: nat, j: nat {:trigger Bit(w[n], j)} | n < |w| && 64 * n < |used| && j < 64 ::
         Bit(w[n], j) == used[64 * n + j]
  }

  /** Bitmap of an EXACT page: the whole descriptor word. */
  predicate ExactMap(slab: Word, used: seq<bool>) {
    |used| == 64 && forall j: nat {:trigger Bit(slab, j)} | j < 64 :: Bit(slab, j) == used[j]
  }

  /** A BIG page: the shift below, the bitmap in the upper half. */
  predicate BigMap(slab: Word, shift: nat, used: seq<bool>) {
    && |used| <= 32
    && forall j: nat {:trigger Bit(slab, j)} | j < 64 ::
         Bit(slab, j) == if j < 32 then Bit(shift, j) else j - 32 < |used| && used[j - 32]
  }

  /** The descriptor word, tag and in-page words of a page of kind k. */
  predicate KindMatch(g: Geo, slab: Word, tag: nat, w: seq<Word>, k: Kind)
    requires g.ParamsOk()
  {
    match k
    case Free(len) => slab == len && tag == TAG_PAGE
    case FreePart(_) => slab == 0 && tag == TAG_PAGE
    case Block(len) => slab == len + PAGE_START && tag == TAG_PAGE
    case BlockPart(_) => slab == BUSY && tag == TAG_PAGE
    case Slab(s, used) =>
      && tag == ClassTag(g, s)
      && (if s < g.ExactShift() then slab == s && SmallMap(w, used)
          else if s == g.ExactShift() then ExactMap(slab, used)
          else BigMap(slab, s, used))
  }

  predicate DataOk(g: Geo, d: seq<Desc>, w: seq<seq<Word>>, kinds: seq<Kind>)
    requires g.ParamsOk()
  {
    && |kinds| == g.pages == |w| && g.pages <= g.tableLen && |d| == g.tableLen + g.RingCount()
    && forall i {:trigger KindMatch(g, d[i].slab, d[i].tag, w[i], kinds[i])} | 0 <= i < |kinds| ::
         KindMatch(g, d[i].slab, d[i].tag, w[i], kinds[i])
  }

  /** A page that is on no list has null links. */
  predicate LooseOk(g: Geo, d: seq<Desc>, kinds: seq<Kind>)
  {
    && |kinds| <= |d|
    && forall i {:trigger RingOf(g, kinds[i])} | 0 <= i < |kinds| && RingOf(g, kinds[i]) == -1 ::
         d[i].next == NIL && d[i].prev == NIL
  }

  /** Descriptors past the usable pages stay zero. */
  predicate SpareOk(g: Geo, d: seq<Desc>) {
    && g.tableLen <= |d|
    && forall i | g.pages <= i < g.tableLen :: d[i] == ZERO
  }

  /** The descriptors d and the in-page words w represent the table t. */
  predicate Matches(g: Geo, d: seq<Desc>, w: seq<seq<Word>>, t: Table)
    requires g.ParamsOk()
  {
    && DataOk(g, d, w, t.kinds)
    && Linked(g.tableLen, d, t.rings)
    && LooseOk(g, d, t.kinds)
    && SpareOk(g, d)
  }

  // ------------------------------------------------------ lists and pages

  lemma ShapeSeparate(g: Geo, t: Table)
    requires g.ParamsOk() && Shape(g, t) && g.pages <= g.tableLen
    ensures Separate(g.tableLen, t.rings)
  {
    forall r | 0 <= r < |t.rings|
      ensures NoDup(t.rings[r])
      ensures forall x | x in t.rings[r] :: 0 <= x < |t.kinds| && RingOf(g, t.kinds[x]) == r
    {
      assert RingOk(g, t.kinds, t.rings[r], r);
    }
  }

  lemma OffRings(g: Geo, t: Table, x: int)
    requires g.ParamsOk() && RingsOk(g, t) && 0 <= x < |t.kinds| && RingOf(g, t.kinds[x]) == -1
    ensures Off(t.rings, x)
  {
    forall r | 0 <= r < |t.rings|
      ensures x !in t.rings[r]
    {
      assert RingOk(g, t.kinds, t.rings[r], r);
    }
  }

  /** Pages on one list carry one tag. */
  lemma TagOnRing(g: Geo, d: seq<Desc>, w: seq<seq<Word>>, t: Table, r: nat)
    requires g.ParamsOk() && Shape(g, t) && DataOk(g, d, w, t.kinds) && r < |t.rings|
    ensures forall x | x in t.rings[r] :: 0 <= x < g.pages && d[x].tag == RingTag(g, r)
  {
    forall x | x in t.rings[r]
      ensures 0 <= x < g.pages && d[x].tag == RingTag(g, r)
    {
      assert RingOk(g, t.kinds, t.rings[r], r);
      assert KindMatch(g, d[x].slab, d[x].tag, w[x], t.kinds[x]);
      assert KindOk(g, t.kinds, x);
    }
  }

  lemma UnlinkEffect(base: nat, d: seq<Desc>, rings: seq<seq<int>>, r: nat, j: nat, tag: nat)
    requires Linked(base, d, rings) && Separate(base, rings) && base <= |d|
    requires r < |rings| && j < |rings[r]|
    requires forall x | x in rings[r] && x < |d| :: d[x].tag == tag
    ensures var x := rings[r][j];
            && 0 <= x < |d| && 0 <= d[x].prev < |d| && 0 <= d[x].next < |d|
            && var e := Unlink(d, x);
               && e[x] == d[x]
               && (forall i | 0 <= i < base :: e[i].slab == d[i].slab && e[i].tag == d[i].tag)
               && (forall i | 0 <= i < base && i !in rings[r] :: e[i] == d[i])
  {
    Neighbours(base, d, rings, r, j);
    InTable(base, rings, r);
  }

  lemma PushEffect(base: nat, d: seq<Desc>, rings: seq<seq<int>>, r: nat, x: int, tag: nat)
    requires Linked(base, d, rings) && Separate(base, rings) && r < |rings| && base <= |d|
    requires 0 <= x < base && Off(rings, x)
    requires forall y | y in rings[r] && y < |d| :: d[y].tag == tag
    ensures base + r < |d| && 0 <= d[base + r].next < |d|
    ensures var e := Push(d, base + r, x, tag);
            && e[x] == Desc(d[x].slab, d[base + r].next, base + r, tag)
            && (forall i | 0 <= i < base :: e[i].slab == d[i].slab && (i != x ==> e[i].tag == d[i].tag))
            && (forall i | 0 <= i < base && i !in rings[r] && i != x :: e[i] == d[i])
  {
    assert RingAt(base, d, rings, r);
    InTable(base, rings, r);
  }

  lemma SwapEffect(base: nat, d: seq<Desc>, rings: seq<seq<int>>, r: nat, j: nat, y: int)
    requires Linked(base, d, rings) && Separate(base, rings) && base <= |d|
    requires r < |rings| && j < |rings[r]| && 0 <= y < base && Off(rings, y)
    requires forall x | x in rings[r] && x < |d| :: d[x].tag == 0
    ensures var x := rings[r][j];
            && 0 <= x < |d| && 0 <= d[x].prev < |d| && 0 <= d[x].next < |d|
            && var e := Swap(d, x, y);
               && e[x] == d[x] && e[y].slab == d[y].slab && e[y].tag == 0
               && (forall i | 0 <= i < base :: e[i].slab == d[i].slab && (i != y ==> e[i].tag == d[i].tag))
               && (forall i | 0 <= i < base && i !in rings[r] && i != y :: e[i] == d[i])
  {
    Neighbours(base, d, rings, r, j);
    InTable(base, rings, r);
  }
}
