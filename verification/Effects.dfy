/** The writes of each allocator step to the descriptor table, and the table
    they represent. */
module Effects {
  import opened Words
  import opened Lists
  import opened PageTable
  import opened Rings
  import opened Descriptors

  lemma {:induction false} FourFits(a: nat, k: nat)
    requires k >= 2
    ensures 4 * a <= Scale(a, k)
  {
    if k > 2 {
      FourFits(a, k - 1);
    } else {
      assert Scale(a, 1) == 2 * a;
    }
  }

  /** A page count fits below the START bit. */
  lemma PagesFit(g: Geo)
    requires g.Ok()
    ensures g.pages < PAGE_START - 1
  {
    FourFits(g.pages, g.pageShift);
  }

  // ------------------------------------------------------------------ init

  /** The descriptors that `ncx_slab_init` leaves; word and tag of the free
      sentinel are whatever they were. */
  function InitialDesc(g: Geo, freeSlab: Word, freeTag: nat): (d: seq<Desc>)
    requires g.Ok()
    ensures |d| == g.tableLen + g.RingCount()
  {
    PagesFit(g);
    seq(g.tableLen + g.RingCount(), i requires 0 <= i =>
      if i == 0 then Desc(g.pages, g.tableLen, g.tableLen, TAG_PAGE)
      else if i < g.tableLen then ZERO
      else if i == g.tableLen then Desc(freeSlab, 0, NIL, freeTag)
      else Desc(0, i, NIL, TAG_PAGE))
  }

  lemma InitialMatches(g: Geo, d: seq<Desc>, w: seq<seq<Word>>)
    requires g.Ok() && |w| == g.pages && |d| == g.tableLen + g.RingCount()
    requires d == InitialDesc(g, d[g.tableLen].slab, d[g.tableLen].tag)
    ensures Matches(g, d, w, InitialTable(g))
  {
    var t := InitialTable(g);
    forall i | 0 <= i < |t.kinds|
      ensures KindMatch(g, d[i].slab, d[i].tag, w[i], t.kinds[i])
    {
    }
    forall r | 0 <= r < |t.rings|
      ensures RingAt(g.tableLen, d, t.rings, r)
    {
      if r == 0 {
        assert t.rings[r] == [0];
        assert Node(d, g.tableLen, [0], 0);
      }
    }
  }

  // ------------------------------------------------------ taking a page run

  /** The run at `page`, or its first k pages, leaves the free list. */
  function Taken(d: seq<Desc>, page: nat, k: nat): (e: seq<Desc>)
    requires page < |d| && 1 <= k <= d[page].slab && page + d[page].slab <= |d|
    requires 0 <= d[page].prev < |d| && 0 <= d[page].next < |d|
    ensures |e| == |d|
  {
    var len := d[page].slab;
    if len > k then Swap(d[page + k := d[page + k].(slab := len - k)], page, page + k) else Unlink(d, page)
  }

  /** k pages at `page` marked as one block. */
  function Filled(a: seq<Desc>, page: nat, k: nat): (e: seq<Desc>)
    requires k < PAGE_START
    ensures |e| == |a|
  {
    seq(|a|, i requires 0 <= i < |a| =>
      if i == page then Desc(k + PAGE_START, NIL, NIL, TAG_PAGE)
      else if page < i < page + k then Desc(BUSY, NIL, NIL, TAG_PAGE)
      else a[i])
  }

  /** The j-th run on the free list, as the search sees it. */
  lemma RunHead(g: Geo, d: seq<Desc>, w: seq<seq<Word>>, t: Table, j: nat)
    requires g.Ok() && Shape(g, t) && Matches(g, d, w, t) && j < |t.rings[0]|
    ensures var page := t.rings[0][j];
            && 0 <= page < |t.kinds| && t.kinds[page].Free? && d[page].slab == t.kinds[page].len
            && 1 <= d[page].slab && page + d[page].slab <= |t.kinds|
            && d[page].next == At(g.tableLen, t.rings[0], j + 1)
            && d[page].next != page && d[page].prev != page
            && 0 <= d[page].prev < |d| && 0 <= d[page].next < |d|
            && page < g.tableLen
  {
    FreeListIsFree(g, t);
    ShapeSeparate(g, t);
    var page := t.rings[0][j];
    InTable(g.tableLen, t.rings, 0);
    Neighbours(g.tableLen, d, t.rings, 0, j);
    assert KindMatch(g, d[page].slab, d[page].tag, w[page], t.kinds[page]);
    assert KindOk(g, t.kinds, page);
  }

  lemma CarvedOk(g: Geo, d: seq<Desc>, w: seq<seq<Word>>, t: Table, j: nat, k: nat)
    requires g.Ok() && Shape(g, t) && Matches(g, d, w, t)
    requires j < |t.rings[0]| && AllFree(t.kinds, t.rings[0]) && 1 <= k <= t.kinds[t.rings[0][j]].len
    ensures var page := t.rings[0][j];
            && 0 <= page < |t.kinds| && d[page].slab == t.kinds[page].len && k < PAGE_START
            && page + d[page].slab <= |t.kinds|
            && 0 <= d[page].prev < |d| && 0 <= d[page].next < |d|
            && d[page].prev == At(g.tableLen, t.rings[0], j - 1) && d[page].next == At(g.tableLen, t.rings[0], j + 1)
  {
    var page := t.rings[0][j];
    Neighbours(g.tableLen, d, t.rings, 0, j);
    assert KindMatch(g, d[page].slab, d[page].tag, w[page], t.kinds[page]);
    assert KindOk(g, t.kinds, page);
    PagesFit(g);
  }

  /** Apart from y, descriptors keep word and tag, and those off the list l
      keep everything. */
  predicate RestSame(base: nat, d: seq<Desc>, a: seq<Desc>, l: seq<int>, y: int)
    requires base <= |d| == |a|
  {
    forall i {:trigger a[i]} | 0 <= i < base && i != y ::
      a[i].slab == d[i].slab && a[i].tag == d[i].tag && (i !in l ==> a[i] == d[i])
  }

  /** The remainder of the run takes the place of its head on the free list. */
  lemma SplitSwap(g: Geo, d: seq<Desc>, w: seq<seq<Word>>, t: Table, j: nat, y: int, rest: Word)
    requires g.Ok() && Shape(g, t) && Matches(g, d, w, t)
    requires j < |t.rings[0]| && 0 <= y < |t.kinds| && t.kinds[y].FreePart?
    ensures var page := t.rings[0][j];
            && 0 <= page < |d| && 0 <= d[page].prev < |d| && 0 <= d[page].next < |d| && page != y
            && var a := Swap(d[y := d[y].(slab := rest)], page, y);
               && Linked(g.tableLen, a, t.rings[0 := t.rings[0][j := y]])
               && a[y].slab == rest && a[y].tag == TAG_PAGE
               && RestSame(g.tableLen, d, a, t.rings[0], y)
  {
    ShapeSeparate(g, t);
    Neighbours(g.tableLen, d, t.rings, 0, j);
    OffRings(g, t, y);
    assert t.rings[0][j] in t.rings[0];
    TagOnRing(g, d, w, t, 0);
    var c := d[y := d[y].(slab := rest)];
    LinkedFrame(g.tableLen, d, c, t.rings);
    SwapLinked(g.tableLen, c, t.rings, 0, j, y);
    SwapEffect(g.tableLen, c, t.rings, 0, j, y);
  }

  /** Overwriting descriptors that are on no list leaves the lists alone. */
  lemma FillBlock(g: Geo, a: seq<Desc>, e: seq<Desc>, u: Table, page: nat, k: nat)
    requires g.ParamsOk() && Shape(g, u) && g.pages <= g.tableLen && Linked(g.tableLen, a, u.rings)
    requires |e| == |a| && page + k <= |u.kinds|
    requires forall i | page <= i < page + k :: Off(u.rings, i)
    requires forall i | 0 <= i < |a| && !(page <= i < page + k) :: e[i] == a[i]
    ensures Linked(g.tableLen, e, u.rings)
  {
    ShapeSeparate(g, u);
    LinkedFrame(g.tableLen, a, e, u.rings);
  }

  /** The pages taken are on no list afterwards. */
  lemma BlockOff(g: Geo, t: Table, j: nat, k: nat)
    requires g.Ok() && Shape(g, t)
    requires j < |t.rings[0]| && AllFree(t.kinds, t.rings[0]) && 1 <= k <= t.kinds[t.rings[0][j]].len
    ensures var page := t.rings[0][j];
            forall i | page <= i < page + k :: i < |t.kinds| && Off(Carve(t, j, k).rings, i)
  {
    var page := t.rings[0][j];
    var u := Carve(t, j, k);
    CarveKeeps(g, t, j, k);
    assert KindOk(g, t.kinds, page);
    forall i | page <= i < page + k
      ensures i < |t.kinds| && Off(u.rings, i)
    {
      assert RingOf(g, u.kinds[i]) == -1;
      OffRings(g, u, i);
    }
  }

  lemma WholeUnlink(g: Geo, d: seq<Desc>, w: seq<seq<Word>>, t: Table, j: nat)
    requires g.Ok() && Shape(g, t) && Matches(g, d, w, t)
    requires j < |t.rings[0]|
    ensures var page := t.rings[0][j];
            && 0 <= page < |d| && 0 <= d[page].prev < |d| && 0 <= d[page].next < |d|
            && Linked(g.tableLen, Unlink(d, page), t.rings[0 := RemoveAt(t.rings[0], j)])
            && RestSame(g.tableLen, d, Unlink(d, page), t.rings[0], -1)
  {
    ShapeSeparate(g, t);
    TagOnRing(g, d, w, t, 0);
    UnlinkLinked(g.tableLen, d, t.rings, 0, j);
    UnlinkEffect(g.tableLen, d, t.rings, 0, j, TAG_PAGE);
  }

  /** Descriptors a, reached from d, hold the lists u, with a remainder of
      `rest` pages at y if there is one. */
  predicate Effect(base: nat, d: seq<Desc>, a: seq<Desc>, u: seq<seq<int>>, free: seq<int>, y: int, rest: nat)
    requires base <= |d| == |a|
  {
    && Linked(base, a, u)
    && (0 <= y < |a| ==> a[y].slab == rest && a[y].tag == TAG_PAGE)
    && RestSame(base, d, a, free, y)
  }

  lemma RunInterior(g: Geo, t: Table, page: nat, y: nat)
    requires g.ParamsOk() && Tiled(g, t.kinds)
    requires page < |t.kinds| && t.kinds[page].Free? && page < y < page + t.kinds[page].len
    ensures y < |t.kinds| && t.kinds[y] == FreePart(page)
  {
    assert KindOk(g, t.kinds, page);
  }

  lemma TakenEffect(g: Geo, d: seq<Desc>, w: seq<seq<Word>>, t: Table, j: nat, k: nat)
    requires g.Ok() && Shape(g, t) && Matches(g, d, w, t)
    requires j < |t.rings[0]| && AllFree(t.kinds, t.rings[0]) && 1 <= k <= t.kinds[t.rings[0][j]].len
    ensures (CarvedOk(g, d, w, t, j, k);
             var page := t.rings[0][j];
             var len := d[page].slab;
             && (k < len ==> page + k < |d|)
             && Effect(g.tableLen, d, Taken(d, page, k), Carve(t, j, k).rings, t.rings[0],
                       if k < len then page + k else -1, len - k))
  {
    CarvedOk(g, d, w, t, j, k);
    var page := t.rings[0][j];
    if k < d[page].slab {
      RunInterior(g, t, page, page + k);
      SplitSwap(g, d, w, t, j, page + k, d[page].slab - k);
    } else {
      WholeUnlink(g, d, w, t, j);
    }
  }

  lemma CarvedData(g: Geo, d: seq<Desc>, e: seq<Desc>, w: seq<seq<Word>>, t: Table, j: nat, k: nat)
    requires g.Ok() && Shape(g, t) && Matches(g, d, w, t) && |e| == |d|
    requires j < |t.rings[0]| && AllFree(t.kinds, t.rings[0]) && 1 <= k <= t.kinds[t.rings[0][j]].len
    requires k < PAGE_START
    requires var page := t.rings[0][j];
             && e[page] == Desc(k + PAGE_START, NIL, NIL, TAG_PAGE)
             && (forall i | page < i < page + k && i < |e| :: e[i] == Desc(BUSY, NIL, NIL, TAG_PAGE))
             && (k < t.kinds[page].len && page + k < |e| ==> e[page + k].slab == d[page].slab - k && e[page + k].tag == TAG_PAGE)
             && (forall i | 0 <= i < g.tableLen && !(page <= i < page + k) && (k < t.kinds[page].len ==> i != page + k) ::
                   e[i].slab == d[i].slab && e[i].tag == d[i].tag)
    ensures DataOk(g, e, w, Carve(t, j, k).kinds)
  {
    var page := t.rings[0][j];
    var u := Carve(t, j, k);
    assert KindOk(g, t.kinds, page);
    forall i | 0 <= i < |u.kinds|
      ensures KindMatch(g, e[i].slab, e[i].tag, w[i], u.kinds[i])
    {
      assert KindMatch(g, d[i].slab, d[i].tag, w[i], t.kinds[i]);
      assert KindMatch(g, d[page].slab, d[page].tag, w[page], t.kinds[page]);
    }
  }

  lemma CarvedLoose(g: Geo, d: seq<Desc>, e: seq<Desc>, w: seq<seq<Word>>, t: Table, j: nat, k: nat)
    requires g.Ok() && Shape(g, t) && Matches(g, d, w, t) && |e| == |d|
    requires j < |t.rings[0]| && AllFree(t.kinds, t.rings[0]) && 1 <= k <= t.kinds[t.rings[0][j]].len
    requires var page := t.rings[0][j];
             && (forall i | page <= i < page + k && i < |e| :: e[i].next == NIL && e[i].prev == NIL)
             && (forall i | 0 <= i < g.tableLen && !(page <= i < page + k) && (k < t.kinds[page].len ==> i != page + k) ::
                   i !in t.rings[0] ==> e[i] == d[i])
    requires Separate(g.tableLen, t.rings)
    ensures LooseOk(g, e, Carve(t, j, k).kinds) && SpareOk(g, e)
  {
    var page := t.rings[0][j];
    var u := Carve(t, j, k);
    assert KindOk(g, t.kinds, page);
    assert RingOk(g, t.kinds, t.rings[0], 0);
    forall i | 0 <= i < |u.kinds| && RingOf(g, u.kinds[i]) == -1
      ensures e[i].next == NIL && e[i].prev == NIL
    {
      assert RingOf(g, t.kinds[i]) == -1 || page <= i < page + k;
    }
  }

  lemma CarvedMatches(g: Geo, d: seq<Desc>, w: seq<seq<Word>>, t: Table, j: nat, k: nat)
    requires g.Ok() && Shape(g, t) && Matches(g, d, w, t)
    requires j < |t.rings[0]| && AllFree(t.kinds, t.rings[0]) && 1 <= k <= t.kinds[t.rings[0][j]].len
    ensures (CarvedOk(g, d, w, t, j, k);
             Matches(g, Filled(Taken(d, t.rings[0][j], k), t.rings[0][j], k), w, Carve(t, j, k)))
  {
    CarvedOk(g, d, w, t, j, k);
    var page := t.rings[0][j];
    var a := Taken(d, page, k);
    var e := Filled(a, page, k);
    TakenEffect(g, d, w, t, j, k);
    CarveKeeps(g, t, j, k);
    BlockOff(g, t, j, k);
    FillBlock(g, a, e, Carve(t, j, k), page, k);
    ShapeSeparate(g, t);
    CarvedData(g, d, e, w, t, j, k);
    CarvedLoose(g, d, e, w, t, j, k);
  }

  // ----------------------------------------------------- giving a run back

  /** The run of k pages at `page`, wiped. */
  function Wiped(d: seq<Desc>, page: nat, k: Word): (e: seq<Desc>)
    ensures |e| == |d|
  {
    seq(|d|, i requires 0 <= i < |d| =>
      if i == page then d[i].(slab := k)
      else if page < i < page + k then ZERO
      else d[i])
  }

  /** The page leaves its list, if it is on one. */
  predicate CanDetach(d: seq<Desc>, page: nat) {
    && page < |d|
    && (d[page].next == NIL ||
        (0 <= d[page].prev < |d| && 0 <= d[page].next < |d| && d[page].prev != page && d[page].next != page))
  }

  function Detached(d: seq<Desc>, page: nat): (e: seq<Desc>)
    requires CanDetach(d, page)
    ensures |e| == |d|
  {
    if d[page].next == NIL then d else Unlink(d, page)
  }

  /** The lists without `page`. */
  function RingsWithout(g: Geo, t: Table, page: int): seq<seq<int>>
    requires g.ParamsOk() && RingsOk(g, t) && 0 <= page < |t.kinds|
  {
    var r := RingOf(g, t.kinds[page]);
    assert 0 <= r < |t.rings| ==> RingOk(g, t.kinds, t.rings[r], r);
    if 0 <= r < |t.rings| then t.rings[r := Without(t.rings[r], page)] else t.rings
  }

  lemma RingsWithoutPage(g: Geo, t: Table, page: int)
    requires g.ParamsOk() && Shape(g, t) && 0 <= page < |t.kinds| && g.pages <= g.tableLen
    ensures var q := RingsWithout(g, t, page);
            && |q| == |t.rings| && Separate(g.tableLen, q) && Off(q, page)
            && forall r, x | 0 <= r < |q| && x in q[r] :: x in t.rings[r]
  {
    ShapeSeparate(g, t);
    var q := RingsWithout(g, t, page);
    var own := RingOf(g, t.kinds[page]);
    assert KindOk(g, t.kinds, page);
    forall r | 0 <= r < |q|
      ensures NoDup(q[r]) && page !in q[r] && forall x | x in q[r] :: x in t.rings[r]
    {
      assert RingOk(g, t.kinds, t.rings[r], r);
      if r == own { RemoveAtMembers(t.rings[r], IndexOf(t.rings[r], page)); }
    }
  }

  /** Off-list descriptors are untouched; words never change, nor tags, except
      that of x. */
  predicate ListWrites(base: nat, d: seq<Desc>, a: seq<Desc>, rings: seq<seq<int>>, x: int)
    requires base <= |d| == |a|
  {
    && (forall i {:trigger a[i]} | 0 <= i < base :: a[i].slab == d[i].slab && (i != x ==> a[i].tag == d[i].tag))
    && (forall i {:trigger a[i]} | 0 <= i < base && i != x && Off(rings, i) :: a[i] == d[i])
  }

  lemma DetachedEffect(g: Geo, d: seq<Desc>, w: seq<seq<Word>>, c: seq<Desc>, t: Table, page: int)
    requires g.Ok() && Shape(g, t) && Matches(g, d, w, t) && 0 <= page < |t.kinds|
    requires RingOf(g, t.kinds[page]) >= -1
    requires Linked(g.tableLen, c, t.rings) && |c| == |d|
    requires c[page].next == d[page].next && forall i | 0 <= i < |d| && !Off(t.rings, i) :: c[i].tag == d[i].tag
    ensures CanDetach(c, page)
    ensures var a := Detached(c, page);
            && Linked(g.tableLen, a, RingsWithout(g, t, page))
            && ListWrites(g.tableLen, c, a, t.rings, -1)
            && a[page] == c[page]
  {
    var r := RingOf(g, t.kinds[page]);
    assert KindOk(g, t.kinds, page);
    ShapeSeparate(g, t);
    if r == -1 {
      assert d[page].next == NIL;
    } else {
      assert RingOk(g, t.kinds, t.rings[r], r);
      var j := IndexOf(t.rings[r], page);
      TagOnRing(g, d, w, t, r);
      assert forall x | x in t.rings[r] :: !Off(t.rings, x);
      Neighbours(g.tableLen, c, t.rings, r, j);
      InTable(g.tableLen, t.rings, r);
      UnlinkLinked(g.tableLen, c, t.rings, r, j);
      UnlinkEffect(g.tableLen, c, t.rings, r, j, RingTag(g, r));
    }
  }

  lemma SpanFits(g: Geo, t: Table, page: int)
    requires g.Ok() && Tiled(g, t.kinds)
    requires 0 <= page < |t.kinds| && !t.kinds[page].FreePart? && !t.kinds[page].BlockPart?
    ensures 1 <= Span(t.kinds[page]) < PAGE_START - 1 && page + Span(t.kinds[page]) <= g.pages
  {
    PagesFit(g);
    assert KindOk(g, t.kinds, page);
  }

  lemma WipedLinked(g: Geo, d: seq<Desc>, w: seq<seq<Word>>, t: Table, page: int)
    requires g.Ok() && Shape(g, t) && Matches(g, d, w, t)
    requires 0 <= page < |t.kinds| && !t.kinds[page].FreePart? && !t.kinds[page].BlockPart?
    ensures (SpanFits(g, t, page);
             var k := Span(t.kinds[page]);
             var c := Wiped(d, page, k);
             && Linked(g.tableLen, c, t.rings)
             && c[page] == d[page].(slab := k)
             && (forall i | 0 <= i < |d| && !Off(t.rings, i) :: c[i].tag == d[i].tag)
             && (forall i | page < i < page + k :: c[i] == ZERO && Off(t.rings, i))
             && (forall i | 0 <= i < |d| && !(page <= i < page + k) :: c[i] == d[i]))
  {
    SpanFits(g, t, page);
    var k := Span(t.kinds[page]);
    assert KindOk(g, t.kinds, page);
    forall i | page < i < page + k
      ensures Off(t.rings, i)
    {
      OffRings(g, t, i);
    }
    ShapeSeparate(g, t);
    LinkedFrame(g.tableLen, d, Wiped(d, page, k), t.rings);
  }

  /** `free_pages`: wipe, detach, push on the free list. */
  function Released(d: seq<Desc>, base: nat, page: nat, k: Word): (e: seq<Desc>)
    requires page < |d| && base < |d| && CanDetach(Wiped(d, page, k), page)
    requires 0 <= Detached(Wiped(d, page, k), page)[base].next < |d|
    ensures |e| == |d|
  {
    Push(Detached(Wiped(d, page, k), page), base, page, TAG_PAGE)
  }

  lemma PushFree(base: nat, c: seq<Desc>, a: seq<Desc>, rings: seq<seq<int>>, q: seq<seq<int>>, page: nat)
    requires Linked(base, a, q) && Separate(base, q) && Off(q, page) && page < base <= |a| == |c|
    requires 0 < |q| == |rings| && forall r, x | 0 <= r < |q| && x in q[r] :: x in rings[r]
    requires ListWrites(base, c, a, rings, -1)
    requires forall y | y in rings[0] && 0 <= y < base :: c[y].tag == TAG_PAGE
    ensures base < |a| && 0 <= a[base].next < |a|
    ensures var e := Push(a, base, page, TAG_PAGE);
            && Linked(base, e, q[0 := [page] + q[0]])
            && e[page].slab == a[page].slab && e[page].tag == TAG_PAGE
            && ListWrites(base, c, e, rings, page)
  {
    assert forall y | y in q[0] :: y in rings[0] && 0 <= y < base;
    PushLinked(base, a, q, 0, page, TAG_PAGE);
    PushEffect(base, a, q, 0, page, TAG_PAGE);
    assert forall i | Off(rings, i) :: i !in q[0];
  }

  lemma FreeListTags(g: Geo, d: seq<Desc>, w: seq<seq<Word>>, t: Table, c: seq<Desc>)
    requires g.Ok() && Shape(g, t) && Matches(g, d, w, t) && |c| == |d|
    requires forall i | 0 <= i < |d| && !Off(t.rings, i) :: c[i].tag == d[i].tag
    ensures forall y | y in t.rings[0] && 0 <= y < g.tableLen :: c[y].tag == TAG_PAGE
  {
    TagOnRing(g, d, w, t, 0);
    assert forall y | y in t.rings[0] :: !Off(t.rings, y);
  }

  lemma ReleasedLinked(g: Geo, d: seq<Desc>, w: seq<seq<Word>>, t: Table, page: int)
    requires g.Ok() && Shape(g, t) && Matches(g, d, w, t)
    requires 0 <= page < |t.kinds| && !t.kinds[page].FreePart? && !t.kinds[page].BlockPart?
    ensures (SpanFits(g, t, page);
             var k := Span(t.kinds[page]);
             && CanDetach(Wiped(d, page, k), page)
             && 0 <= Detached(Wiped(d, page, k), page)[g.tableLen].next < |d|
             && var e := Released(d, g.tableLen, page, k);
                && Linked(g.tableLen, e, Release(g, t, page).rings)
                && e[page].slab == k && e[page].tag == TAG_PAGE
                && ListWrites(g.tableLen, Wiped(d, page, k), e, t.rings, page))
  {
    SpanFits(g, t, page);
    WipedLinked(g, d, w, t, page);
    assert RingOf(g, t.kinds[page]) >= -1 by {
      assert KindOk(g, t.kinds, page);
    }
    var c := Wiped(d, page, Span(t.kinds[page]));
    DetachedEffect(g, d, w, c, t, page);
    RingsWithoutPage(g, t, page);
    FreeListTags(g, d, w, t, c);
    PushFree(g.tableLen, c, Detached(c, page), t.rings, RingsWithout(g, t, page), page);
  }

  lemma SpareOff(g: Geo, t: Table, i: int)
    requires g.ParamsOk() && Shape(g, t) && g.pages <= i
    ensures Off(t.rings, i)
  {
    forall r | 0 <= r < |t.rings|
      ensures i !in t.rings[r]
    {
      assert RingOk(g, t.kinds, t.rings[r], r);
    }
  }

  lemma ReleasedMatches(g: Geo, d: seq<Desc>, w: seq<seq<Word>>, t: Table, page: int)
    requires g.Ok() && Shape(g, t) && Matches(g, d, w, t)
    requires 0 <= page < |t.kinds| && !t.kinds[page].FreePart? && !t.kinds[page].BlockPart?
    ensures (SpanFits(g, t, page);
             ReleasedLinked(g, d, w, t, page);
             Matches(g, Released(d, g.tableLen, page, Span(t.kinds[page])), w, Release(g, t, page)))
  {
    SpanFits(g, t, page);
    ReleasedLinked(g, d, w, t, page);
    WipedLinked(g, d, w, t, page);
    var k := Span(t.kinds[page]);
    var c := Wiped(d, page, k);
    var e := Released(d, g.tableLen, page, k);
    var u := Release(g, t, page);
    assert KindOk(g, t.kinds, page);
    forall i | 0 <= i < |u.kinds|
      ensures KindMatch(g, e[i].slab, e[i].tag, w[i], u.kinds[i])
    {
      assert KindMatch(g, d[i].slab, d[i].tag, w[i], t.kinds[i]);
    }
    forall i | 0 <= i < |u.kinds| && RingOf(g, u.kinds[i]) == -1
      ensures e[i].next == NIL && e[i].prev == NIL
    {
      if !(page < i < page + k) { OffRings(g, t, i); }
    }
    ShapeSeparate(g, t);
    forall i | g.pages <= i < g.tableLen
      ensures e[i] == ZERO
    {
      SpareOff(g, t, i);
    }
  }
}
