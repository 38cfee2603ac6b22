/** The writes that hand out or take back one chunk, and the table they
    represent. */
module ChunkEffects {
  import opened Words
  import opened Lists
  import opened PageTable
  import opened Chunks
  import opened Rings
  import opened Descriptors
  import opened Effects

  /** Only word and in-page words of `page` change, and the page stays on (or
      off) the list it is on. */
  lemma RetypeMatches(g: Geo, d: seq<Desc>, w: seq<seq<Word>>, t: Table,
                      page: nat, slab: Word, words: seq<Word>, k: Kind)
    requires g.Ok() && Shape(g, t) && Matches(g, d, w, t) && page < |t.kinds|
    requires RingOf(g, k) == RingOf(g, t.kinds[page])
    requires KindMatch(g, slab, d[page].tag, words, k)
    ensures Matches(g, d[page := d[page].(slab := slab)], w[page := words], Table(t.kinds[page := k], t.rings))
  {
    var e := d[page := d[page].(slab := slab)];
    var w' := w[page := words];
    var kinds := t.kinds[page := k];
    ShapeSeparate(g, t);
    LinkedFrame(g.tableLen, d, e, t.rings);
    forall i | 0 <= i < |kinds|
      ensures KindMatch(g, e[i].slab, e[i].tag, w'[i], kinds[i])
    {
      assert KindMatch(g, d[i].slab, d[i].tag, w[i], t.kinds[i]);
    }
    forall i | 0 <= i < |kinds| && RingOf(g, kinds[i]) == -1
      ensures e[i].next == NIL && e[i].prev == NIL
    {
      assert RingOf(g, t.kinds[i]) == -1;
    }
  }

  /** Other pages keep word and tag; those on no list keep everything. */
  predicate OthersKept(base: nat, d: seq<Desc>, e: seq<Desc>, rings: seq<seq<int>>, page: int)
    requires base <= |d| == |e|
  {
    forall i {:trigger e[i]} | 0 <= i < base && i != page ::
      e[i].slab == d[i].slab && e[i].tag == d[i].tag && (Off(rings, i) ==> e[i] == d[i])
  }

  /** Everything but `page` and the links of listed pages is as before. */
  lemma OthersMatch(g: Geo, d: seq<Desc>, w: seq<seq<Word>>, t: Table, e: seq<Desc>, w': seq<seq<Word>>,
                    page: nat, u: Table)
    requires g.Ok() && Shape(g, t) && Matches(g, d, w, t) && page < |t.kinds| && |e| == |d|
    requires |u.kinds| == |t.kinds| == |w'| && forall i | 0 <= i < |t.kinds| && i != page :: u.kinds[i] == t.kinds[i] && w'[i] == w[i]
    requires KindMatch(g, e[page].slab, e[page].tag, w'[page], u.kinds[page])
    requires RingOf(g, u.kinds[page]) == -1 ==> e[page].next == NIL && e[page].prev == NIL
    requires OthersKept(g.tableLen, d, e, t.rings, page)
    requires Linked(g.tableLen, e, u.rings)
    ensures Matches(g, e, w', u)
  {
    forall i | 0 <= i < |u.kinds|
      ensures KindMatch(g, e[i].slab, e[i].tag, w'[i], u.kinds[i])
    {
      assert KindMatch(g, d[i].slab, d[i].tag, w[i], t.kinds[i]);
    }
    forall i | 0 <= i < |u.kinds| && RingOf(g, u.kinds[i]) == -1
      ensures e[i].next == NIL && e[i].prev == NIL
    {
      if i != page { OffRings(g, t, i); }
    }
    forall i | g.pages <= i < g.tableLen
      ensures e[i] == ZERO
    {
      SpareOff(g, t, i);
    }
  }

  // ---------------------------------------------------------- taking a chunk

  /** A page that became full leaves its list. */
  function Retired(d: seq<Desc>, page: nat, slab: Word, tag: nat): (e: seq<Desc>)
    requires page < |d| && 0 <= d[page].prev < |d| && 0 <= d[page].next < |d|
    ensures |e| == |d|
  {
    Unlink(d[page := d[page].(slab := slab)], page)[page := Desc(slab, NIL, NIL, tag)]
  }

  /** The first page of list r, as the scan finds it. */
  lemma FirstPage(g: Geo, d: seq<Desc>, w: seq<seq<Word>>, t: Table, r: nat)
    requires g.Ok() && Shape(g, t) && Matches(g, d, w, t) && 0 < r < |t.rings| && t.rings[r] != []
    ensures var page := t.rings[r][0];
            && 0 <= page < g.pages && 0 <= d[page].prev < |d| && 0 <= d[page].next < |d|
            && d[page].prev == g.tableLen + r && d[page].prev != page
            && d[g.tableLen + r].next == page && d[page].next != page
            && d[page].tag == RingTag(g, r)
  {
    var page := t.rings[r][0];
    ShapeSeparate(g, t);
    TagOnRing(g, d, w, t, r);
    assert page in t.rings[r];
    Neighbours(g.tableLen, d, t.rings, r, 0);
    InTable(g.tableLen, t.rings, r);
    assert RingAt(g.tableLen, d, t.rings, r);
  }

  /** `page = slots[slot].next; page->next != page`: is the list empty? */
  lemma ListEmpty(g: Geo, d: seq<Desc>, w: seq<seq<Word>>, t: Table, r: nat)
    requires g.Ok() && Shape(g, t) && Matches(g, d, w, t) && 0 < r < |t.rings|
    ensures g.tableLen + r < |d|
    ensures var first := d[g.tableLen + r].next;
            0 <= first < |d| && (d[first].next != first <==> t.rings[r] != [])
  {
    assert RingAt(g.tableLen, d, t.rings, r);
    if t.rings[r] != [] { FirstPage(g, d, w, t, r); }
  }

  /** What the scan finds on the first page of a class list: the list link, its
      word and tag, and a chunk map that is not full. */
  lemma PageToScan(g: Geo, d: seq<Desc>, w: seq<seq<Word>>, t: Table, shift: nat)
    requires g.Ok() && Shape(g, t) && Matches(g, d, w, t) && g.IsClass(shift)
    requires t.rings[1 + shift - g.minShift] != []
    ensures var r := 1 + shift - g.minShift;
            var page := t.rings[r][0];
            && 0 <= page < g.pages && g.pages == |t.kinds| == |w| && g.pages <= g.tableLen <= |d| - r
            && d[g.tableLen + r].next == page && d[page].next != page
            && 0 <= d[page].prev < |d| && 0 <= d[page].next < |d| && d[page].prev != page
            && t.kinds[page].Slab? && t.kinds[page].shift == shift
            && !Full(t.kinds[page].used) && |t.kinds[page].used| == g.Chunks(shift)
            && KindMatch(g, d[page].slab, ClassTag(g, shift), w[page], t.kinds[page])
            && RingTag(g, r) == ClassTag(g, shift)
  {
    FirstOnRing(g, t, shift);
    FirstPage(g, d, w, t, 1 + shift - g.minShift);
    var page := t.rings[1 + shift - g.minShift][0];
    assert KindOk(g, t.kinds, page);
    assert KindMatch(g, d[page].slab, d[page].tag, w[page], t.kinds[page]);
  }

  lemma SeparateRemoved(base: nat, rings: seq<seq<int>>, r: nat, j: nat)
    requires Separate(base, rings) && r < |rings| && j < |rings[r]|
    ensures var q := rings[r := RemoveAt(rings[r], j)];
            Separate(base, q) && Off(q, rings[r][j])
  {
    RemoveAtMembers(rings[r], j);
    assert rings[r][j] in rings[r];
  }

  lemma UnlinkFirst(base: nat, c: seq<Desc>, rings: seq<seq<int>>, r: nat, tag: nat, x: Desc)
    requires Linked(base, c, rings) && Separate(base, rings) && base <= |c|
    requires r < |rings| && rings[r] != []
    requires forall y | y in rings[r] && y < |c| :: c[y].tag == tag
    ensures var page := rings[r][0];
            && 0 <= page < base && 0 <= c[page].prev < |c| && 0 <= c[page].next < |c|
            && var e := Unlink(c, page)[page := x];
               && Linked(base, e, rings[r := rings[r][1..]])
               && OthersKept(base, c, e, rings, page)
  {
    var page := rings[r][0];
    assert page in rings[r];
    UnlinkLinked(base, c, rings, r, 0);
    UnlinkEffect(base, c, rings, r, 0, tag);
    var a := Unlink(c, page);
    assert RemoveAt(rings[r], 0) == rings[r][1..];
    SeparateRemoved(base, rings, r, 0);
    LinkedFrame(base, a, a[page := x], rings[r := RemoveAt(rings[r], 0)]);
  }

  lemma RetiredLinked(g: Geo, d: seq<Desc>, w: seq<seq<Word>>, t: Table, r: nat, slab: Word, tag: nat)
    requires g.Ok() && Shape(g, t) && Matches(g, d, w, t) && 0 < r < |t.rings| && t.rings[r] != []
    ensures (FirstPage(g, d, w, t, r);
             var page := t.rings[r][0];
             var e := Retired(d, page, slab, tag);
             && Linked(g.tableLen, e, t.rings[r := t.rings[r][1..]])
             && OthersKept(g.tableLen, d, e, t.rings, page))
  {
    FirstPage(g, d, w, t, r);
    ShapeSeparate(g, t);
    TagOnRing(g, d, w, t, r);
    var page := t.rings[r][0];
    assert page in t.rings[r];
    var c := d[page := d[page].(slab := slab)];
    LinkedFrame(g.tableLen, d, c, t.rings);
    UnlinkFirst(g.tableLen, c, t.rings, r, RingTag(g, r), Desc(slab, NIL, NIL, tag));
  }

  /** The descriptors after a chunk was marked on the first page of list r. */
  function AfterTake(g: Geo, d: seq<Desc>, page: nat, slab: Word, tag: nat, full: bool): (e: seq<Desc>)
    requires page < |d| && 0 <= d[page].prev < |d| && 0 <= d[page].next < |d|
    ensures |e| == |d|
  {
    if full then Retired(d, page, slab, tag) else d[page := d[page].(slab := slab)]
  }

  lemma TakeChunkMatches(g: Geo, d: seq<Desc>, w: seq<seq<Word>>, t: Table, r: nat, slab: Word, words: seq<Word>)
    requires g.Ok() && Inv(g, t) && Matches(g, d, w, t) && 0 < r < |t.rings| && t.rings[r] != []
    requires var page := t.rings[r][0];
             && 0 <= page < |t.kinds| && t.kinds[page].Slab? && !Full(t.kinds[page].used)
             && KindMatch(g, slab, RingTag(g, r), words, TakeChunk(t, r).kinds[page])
    ensures var page := t.rings[r][0];
            var u := TakeChunk(t, r);
            && 0 <= d[page].prev < |d| && 0 <= d[page].next < |d|
            && Matches(g, AfterTake(g, d, page, slab, RingTag(g, r), Full(u.kinds[page].used)), w[page := words], u)
  {
    var page := t.rings[r][0];
    var u := TakeChunk(t, r);
    FirstPage(g, d, w, t, r);
    RetiredLinked(g, d, w, t, r, slab, RingTag(g, r));
    if Full(u.kinds[page].used) {
      OthersMatch(g, d, w, t, Retired(d, page, slab, RingTag(g, r)), w[page := words], page, u);
    } else {
      RetypeMatches(g, d, w, t, page, slab, words, u.kinds[page]);
    }
  }

  // ------------------------------------------------------------- a new page

  /** A page just taken becomes the only one on its class list. */
  function Opened(d: seq<Desc>, page: nat, s: nat, slab: Word, tag: nat): (e: seq<Desc>)
    requires page < |d| && s < |d|
    ensures |e| == |d|
  {
    var a := d[page := Desc(slab, s, s, tag)];
    a[s := a[s].(next := page)]
  }

  lemma OpenedLinked(g: Geo, d: seq<Desc>, t: Table, page: nat, r: nat, slab: Word, tag: nat)
    requires g.ParamsOk() && Shape(g, t) && Linked(g.tableLen, d, t.rings)
    requires page < |t.kinds| && g.pages <= g.tableLen && RingOf(g, t.kinds[page]) == -1
    requires r < |t.rings| && t.rings[r] == [] && page < |d| && g.tableLen + r < |d|
    ensures Linked(g.tableLen, Opened(d, page, g.tableLen + r, slab, tag), t.rings[r := [page]])
  {
    var s := g.tableLen + r;
    var e := Opened(d, page, s, slab, tag);
    var after := t.rings[r := [page]];
    OffRings(g, t, page);
    ShapeSeparate(g, t);
    forall q | 0 <= q < |after|
      ensures RingAt(g.tableLen, e, after, q)
    {
      assert RingAt(g.tableLen, d, t.rings, q);
      if q == r {
        assert Node(e, s, [page], 0);
      } else {
        RingFrame(d, e, g.tableLen + q, t.rings[q]);
      }
    }
  }

  lemma NewSlabMatches(g: Geo, d: seq<Desc>, w: seq<seq<Word>>, t: Table, page: nat, shift: nat,
                       slab: Word, words: seq<Word>)
    requires g.Ok() && Inv(g, t) && Matches(g, d, w, t) && g.IsClass(shift)
    requires page < |t.kinds| && t.kinds[page] == Block(1) && t.rings[1 + shift - g.minShift] == []
    requires KindMatch(g, slab, ClassTag(g, shift), words, NewSlab(g, t, page, shift).kinds[page])
    ensures Matches(g, Opened(d, page, g.tableLen + 1 + shift - g.minShift, slab, ClassTag(g, shift)),
                    w[page := words], NewSlab(g, t, page, shift))
  {
    var r := 1 + shift - g.minShift;
    var s := g.tableLen + r;
    var e := Opened(d, page, s, slab, ClassTag(g, shift));
    var u := NewSlab(g, t, page, shift);
    OpenedLinked(g, d, t, page, r, slab, ClassTag(g, shift));
    assert RingOf(g, u.kinds[page]) != -1 by {
      ReservedBounds(g, shift);
      var used := FirstUse(g, shift);
      assert !used[|used| - 1];
    }
    OthersMatch(g, d, w, t, e, w[page := words], page, u);
  }

  // ------------------------------------------------------ taking a chunk back

  /** The descriptors after a chunk of `page` was cleared: a page that was full
      is back at the front of its list. */
  function AfterClear(d: seq<Desc>, page: nat, s: nat, slab: Word, tag: nat, full: bool): (e: seq<Desc>)
    requires page < |d| && s < |d| && s != page && 0 <= d[s].next < |d|
    ensures |e| == |d|
  {
    var b := d[page := d[page].(slab := slab)];
    if full then Push(b, s, page, tag) else b
  }

  /** What a free finds on a slab page. */
  lemma PageToClear(g: Geo, d: seq<Desc>, w: seq<seq<Word>>, t: Table, page: nat)
    requires g.Ok() && Shape(g, t) && Matches(g, d, w, t)
    requires page < |t.kinds| && t.kinds[page].Slab?
    ensures var Slab(shift, used) := t.kinds[page];
            && g.IsClass(shift) && |used| == g.Chunks(shift) && page < g.pages
            && var s := g.tableLen + 1 + shift - g.minShift;
               && s < |d| && page < g.tableLen && page < |w| && 0 <= d[s].next < |d|
               && (d[page].next == NIL <==> Full(used))
               && d[page].tag == ClassTag(g, shift)
               && KindMatch(g, d[page].slab, ClassTag(g, shift), w[page], t.kinds[page])
  {
    var Slab(shift, used) := t.kinds[page];
    var r := 1 + shift - g.minShift;
    assert KindOk(g, t.kinds, page);
    assert KindMatch(g, d[page].slab, d[page].tag, w[page], t.kinds[page]);
    assert RingAt(g.tableLen, d, t.rings, r);
    ShapeSeparate(g, t);
    InTable(g.tableLen, t.rings, r);
    if Full(used) {
      assert RingOf(g, t.kinds[page]) == -1;
    } else {
      assert RingOk(g, t.kinds, t.rings[r], r);
      assert RingOf(g, t.kinds[page]) == r;
      Neighbours(g.tableLen, d, t.rings, r, IndexOf(t.rings[r], page));
    }
  }

  /** Type and word of the page a freed pointer lies in. */
  lemma PageToFree(g: Geo, d: seq<Desc>, w: seq<seq<Word>>, t: Table, page: nat)
    requires g.Ok() && Shape(g, t) && Matches(g, d, w, t) && page < g.tableLen
    ensures page < |d| && |t.kinds| == g.pages
    ensures d[page].tag != TAG_PAGE <==> page < |t.kinds| && t.kinds[page].Slab?
    ensures page >= |t.kinds| ==> d[page].slab == 0
    ensures page < |t.kinds| && !t.kinds[page].Slab? ==>
              && (d[page].slab == 0 <==> t.kinds[page].FreePart?)
              && (d[page].slab == BUSY <==> t.kinds[page].BlockPart?)
              && (t.kinds[page].Free? || t.kinds[page].Block? ==> And(d[page].slab, Not(PAGE_START)) == Span(t.kinds[page]))
  {
    if page < |t.kinds| {
      assert KindOk(g, t.kinds, page);
      assert KindMatch(g, d[page].slab, d[page].tag, w[page], t.kinds[page]);
      PagesFit(g);
      if t.kinds[page].Free? || t.kinds[page].Block? { TopBit(Span(t.kinds[page]), PAGE_START); }
    } else {
      assert d[page] == ZERO;
    }
  }

  /** How the walk of `stat` tells the first pages of runs apart: only a free
      run has a `prev` pointer and tag PAGE. */
  lemma RunToCount(g: Geo, d: seq<Desc>, w: seq<seq<Word>>, t: Table, i: nat)
    requires g.Ok() && Shape(g, t) && Matches(g, d, w, t) && i < |t.kinds|
    requires !t.kinds[i].FreePart? && !t.kinds[i].BlockPart?
    ensures i < |d| && i < |w|
    ensures d[i].tag != TAG_PAGE <==> t.kinds[i].Slab?
    ensures t.kinds[i].Slab? ==>
              && g.IsClass(t.kinds[i].shift) && |t.kinds[i].used| == g.Chunks(t.kinds[i].shift)
              && d[i].tag == ClassTag(g, t.kinds[i].shift)
              && KindMatch(g, d[i].slab, d[i].tag, w[i], t.kinds[i])
    ensures t.kinds[i].Block? ==> d[i].prev == NIL && And(d[i].slab, Not(PAGE_START)) == t.kinds[i].len
    ensures t.kinds[i].Free? ==> d[i].prev != NIL && d[i].slab == t.kinds[i].len
  {
    PageToFree(g, d, w, t, i);
    assert KindOk(g, t.kinds, i);
    assert KindMatch(g, d[i].slab, d[i].tag, w[i], t.kinds[i]);
    if t.kinds[i].Free? {
      assert RingOk(g, t.kinds, t.rings[0], 0);
      assert RingOf(g, t.kinds[i]) == 0;
      Neighbours(g.tableLen, d, t.rings, 0, IndexOf(t.rings[0], i));
    } else if t.kinds[i].Block? {
      assert RingOf(g, t.kinds[i]) == -1;
    }
  }

  lemma ClearedTable(g: Geo, t: Table, u: Table, page: nat, c: nat)
    requires g.ParamsOk() && Shape(g, t) && page < |t.kinds| && t.kinds[page].Slab? && KindOk(g, t.kinds, page)
    requires g.Reserved(t.kinds[page].shift) <= c < |t.kinds[page].used|
    requires u == ClearChunk(g, t, page, c) && NoEmptySlab(g, u.kinds, page)
    ensures u.kinds[page] == Slab(t.kinds[page].shift, t.kinds[page].used[c := false])
    ensures !Empty(u.kinds[page].used, g.Reserved(t.kinds[page].shift)) ==> NoEmptySlab(g, u.kinds, -1)
    ensures ReleaseChunk(g, t, page, c) ==
              if Empty(u.kinds[page].used, g.Reserved(t.kinds[page].shift)) then (ClearChunkKeeps(g, t, page, c); Release(g, u, page)) else u
  {
    ClearChunkKeeps(g, t, page, c);
  }

  lemma PushBack(base: nat, b: seq<Desc>, rings: seq<seq<int>>, r: nat, page: nat, tag: nat)
    requires Linked(base, b, rings) && Separate(base, rings) && base <= |b|
    requires r < |rings| && page < base && Off(rings, page)
    requires forall y | y in rings[r] && y < |b| :: b[y].tag == tag
    ensures base + r < |b| && 0 <= b[base + r].next < |b|
    ensures var e := Push(b, base + r, page, tag);
            && Linked(base, e, rings[r := [page] + rings[r]])
            && OthersKept(base, b, e, rings, page)
            && e[page].slab == b[page].slab && e[page].tag == tag
  {
    PushLinked(base, b, rings, r, page, tag);
    PushEffect(base, b, rings, r, page, tag);
    assert forall i | Off(rings, i) :: i !in rings[r];
  }

  /** Writing the word of a page on no list, then pushing it. */
  lemma WritePush(base: nat, d: seq<Desc>, rings: seq<seq<int>>, r: nat, page: nat, slab: Word, tag: nat)
    requires Linked(base, d, rings) && Separate(base, rings) && base <= |d|
    requires r < |rings| && page < base && Off(rings, page)
    requires forall y | y in rings[r] && y < |d| :: d[y].tag == tag
    ensures base + r < |d| && 0 <= d[base + r].next < |d|
    ensures var e := Push(d[page := d[page].(slab := slab)], base + r, page, tag);
            && Linked(base, e, rings[r := [page] + rings[r]])
            && OthersKept(base, d, e, rings, page)
            && e[page].slab == slab && e[page].tag == tag
  {
    var b := d[page := d[page].(slab := slab)];
    LinkedFrame(base, d, b, rings);
    PushBack(base, b, rings, r, page, tag);
  }

  lemma ClearFullMatches(g: Geo, d: seq<Desc>, w: seq<seq<Word>>, t: Table, page: nat, c: nat,
                         slab: Word, words: seq<Word>)
    requires g.Ok() && Shape(g, t) && Matches(g, d, w, t)
    requires page < |t.kinds| && t.kinds[page].Slab? && c < |t.kinds[page].used| && KindOk(g, t.kinds, page)
    requires Full(t.kinds[page].used) && d[page].tag == ClassTag(g, t.kinds[page].shift)
    requires KindMatch(g, slab, d[page].tag, words, ClearChunk(g, t, page, c).kinds[page])
    ensures var s := g.tableLen + 1 + t.kinds[page].shift - g.minShift;
            && d[page].next == NIL && 0 <= d[s].next < |d|
            && Matches(g, Push(d[page := d[page].(slab := slab)], s, page, ClassTag(g, t.kinds[page].shift)),
                       w[page := words], ClearChunk(g, t, page, c))
  {
    var shift := t.kinds[page].shift;
    var r := 1 + shift - g.minShift;
    var tag := ClassTag(g, shift);
    var u := ClearChunk(g, t, page, c);
    assert !u.kinds[page].used[c];
    assert RingOf(g, t.kinds[page]) == -1;
    OffRings(g, t, page);
    ShapeSeparate(g, t);
    TagOnRing(g, d, w, t, r);
    WritePush(g.tableLen, d, t.rings, r, page, slab, tag);
    var e := Push(d[page := d[page].(slab := slab)], g.tableLen + r, page, tag);
    OthersMatch(g, d, w, t, e, w[page := words], page, u);
  }

  lemma ClearChunkMatches(g: Geo, d: seq<Desc>, w: seq<seq<Word>>, t: Table, page: nat, c: nat,
                          slab: Word, words: seq<Word>)
    requires g.Ok() && Shape(g, t) && Matches(g, d, w, t)
    requires page < |t.kinds| && t.kinds[page].Slab? && c < |t.kinds[page].used|
    requires g.IsClass(t.kinds[page].shift)
    requires KindMatch(g, slab, ClassTag(g, t.kinds[page].shift), words, ClearChunk(g, t, page, c).kinds[page])
    ensures (PageToClear(g, d, w, t, page);
             var s := g.tableLen + 1 + t.kinds[page].shift - g.minShift;
             Matches(g, AfterClear(d, page, s, slab, ClassTag(g, t.kinds[page].shift), Full(t.kinds[page].used)),
                     w[page := words], ClearChunk(g, t, page, c)))
  {
    PageToClear(g, d, w, t, page);
    assert KindOk(g, t.kinds, page);
    var Slab(shift, used) := t.kinds[page];
    var u := ClearChunk(g, t, page, c);
    assert !u.kinds[page].used[c];
    if Full(used) {
      ClearFullMatches(g, d, w, t, page, c, slab, words);
    } else {
      RetypeMatches(g, d, w, t, page, slab, words, u.kinds[page]);
    }
  }
}
