/** The slab pool as the code keeps it: one array of page descriptors, followed
    by the sentinel of the free list and those of the size classes, and the
    words at the start of every page.  Every method is proved to compute the
    function of module Allocator on the table it represents. */
module SlabPool {
  import opened Words
  import opened PageTable
  import opened Chunks
  import opened Allocator
  import opened Rings
  import opened Descriptors
  import opened Effects
  import opened ChunkEffects
  import opened Bitmaps
  import opened Scans
  import opened Geometry
  import opened Usage
  import opened SlabHeap

  /** Every page has room for the bitmap of any class. */
  predicate WordsOk(g: Geo, w: seq<seq<Word>>)
  {
    forall i {:trigger w[i]} | 0 <= i < |w| :: |w[i]| == g.PageSize() / 8
  }

  /** The words that hold the bitmaps of SMALL pages are the same in both. */
  predicate BitmapsSame(g: Geo, w: seq<seq<Word>>, w': seq<seq<Word>>, t: Table)
    requires g.ParamsOk() && Tiled(g, t.kinds) && |w| == |w'| == |t.kinds|
  {
    forall i | 0 <= i < |w| ::
      && |w'[i]| == |w[i]|
      && (t.kinds[i].Slab? && t.kinds[i].shift < g.ExactShift() ==>
            forall k | 0 <= k < |w[i]| && 64 * k < |t.kinds[i].used| :: w'[i][k] == w[i][k])
  }

  /** Nothing else in the pages matters to the allocator. */
  lemma BitmapsDecide(g: Geo, d: seq<Desc>, w: seq<seq<Word>>, w': seq<seq<Word>>, t: Table)
    requires g.Ok() && Shape(g, t) && Matches(g, d, w, t)
    requires |w| == |w'| == |t.kinds| && BitmapsSame(g, w, w', t)
    ensures Matches(g, d, w', t)
  {
    forall i | 0 <= i < |t.kinds|
      ensures KindMatch(g, d[i].slab, d[i].tag, w'[i], t.kinds[i])
    {
      assert KindMatch(g, d[i].slab, d[i].tag, w[i], t.kinds[i]);
    }
  }

  /** From w to w' only words that meet the block at p have changed. */
  ghost predicate StoredIn(g: Geo, w: seq<seq<Word>>, w': seq<seq<Word>>, p: int, size: nat) {
    |w| == |w'| && forall i | 0 <= i < |w| ::
      |w'[i]| == |w[i]| && forall k | 0 <= k < |w[i]| && Apart(p, size, Address(g, i, 8 * k), 8) :: w'[i][k] == w[i][k]
  }

  lemma WordInBitmap(chunks: nat, k: nat)
    requires chunks % 64 == 0 && 64 * k < chunks
    ensures 8 * k + 8 <= chunks / 8
  {
    var m := chunks / 64;
    assert chunks == 64 * m;
  }

  /** No word of a bitmap meets a live block, not even where blocks are smaller
      than words. */
  lemma BitmapWordApart(g: Geo, t: Table, p: int, i: nat, k: nat)
    requires g.Ok() && Tiled(g, t.kinds) && p in Live(g, t)
    requires i < |t.kinds| && t.kinds[i].Slab? && t.kinds[i].shift < g.ExactShift() && 64 * k < |t.kinds[i].used|
    ensures Apart(p, Live(g, t)[p], Address(g, i, 8 * k), 8)
  {
    assert KindOk(g, t.kinds, i);
    ReservedBounds(g, t.kinds[i].shift);
    BlocksMissBitmaps(g, t, p, i);
    WordInBitmap(g.Chunks(t.kinds[i].shift), k);
  }

  /** Whatever a caller stores in its own block, the bitmaps stay. */
  lemma StoresMissBitmaps(g: Geo, w: seq<seq<Word>>, w': seq<seq<Word>>, t: Table, p: int)
    requires g.Ok() && Tiled(g, t.kinds) && |w| == |t.kinds|
    requires p in Live(g, t) && StoredIn(g, w, w', p, Live(g, t)[p])
    ensures BitmapsSame(g, w, w', t)
  {
    forall i, k | 0 <= i < |w| && t.kinds[i].Slab? && t.kinds[i].shift < g.ExactShift()
                  && 0 <= k < |w[i]| && 64 * k < |t.kinds[i].used|
      ensures w'[i][k] == w[i][k]
    {
      BitmapWordApart(g, t, p, i, k);
    }
  }

  /** Result of a branch of `free`. */
  datatype Verdict = Untouched | Kept | Emptied

  class Pool {
    const g: Geo
    const desc: array<Desc>
    const words: array<seq<Word>>
    ghost var table: Table

    /** The arrays represent `table`, whose shape is sound. */
    ghost predicate Consistent()
      reads this, desc, words
    {
      && g.Ok()
      && Shape(g, table)
      && Matches(g, desc[..], words[..], table)
      && WordsOk(g, words[..])
    }

    /** Between calls: no empty slab page is kept. */
    ghost predicate Valid()
      reads this, desc, words
    {
      Consistent() && NoEmptySlab(g, table.kinds, -1)
    }

    /** Sentinel of the free list. */
    function FreeList(): nat { g.tableLen }

    /** Sentinel of a size class. */
    function SlotAt(slot: nat): nat { g.tableLen + 1 + slot }

    // -------------------------------------------------------------- init

    /** The stores of `ncx_slab_init`. */
    method InitTable(m: int)
      requires g.Ok() && desc.Length == g.tableLen + g.RingCount()
      requires g.pages == (if m > 0 then g.tableLen - m else g.tableLen) && g.tableLen <= ALL_ONES
      modifies desc
      ensures desc[..] == InitialDesc(g, desc[FreeList()].slab, desc[FreeList()].tag)
    {
      var n := g.pageShift - g.minShift;
      var i := 0;
      while i < n
        invariant 0 <= i <= n
        invariant forall k | g.tableLen < k <= g.tableLen + i :: desc[k] == Desc(0, k, NIL, TAG_PAGE)
      {
        desc[SlotAt(i)] := Desc(0, SlotAt(i), NIL, TAG_PAGE);
        i := i + 1;
      }
      forall k | 0 <= k < g.tableLen {
        desc[k] := ZERO;
      }
      desc[FreeList()] := desc[FreeList()].(prev := NIL, tag := TAG_PAGE);
      desc[FreeList()] := desc[FreeList()].(next := 0);
      desc[0] := Desc(g.tableLen, FreeList(), FreeList(), TAG_PAGE);
      if m > 0 {
        desc[0] := desc[0].(slab := g.tableLen - m);
      }
    }

    /** `ncx_slab_init` on the memory [pool, end): a header of `header` bytes,
        the sentinels, the descriptor table, then whole aligned pages, which
        hold arbitrary words.  At least one page must fit. */
    constructor (pool: nat, header: nat, end: Word, minShift: nat, pageShift: nat, memory: (nat, nat) -> Word)
      requires 6 <= pageShift <= 16 && minShift < pageShift && pageShift <= 2 * minShift + 7
      requires 0 < pool
      requires var tableAt := pool + header + DESC_SIZE * (pageShift - minShift);
               tableAt <= end && RoomForAPage(tableAt, end - (pool + header), end, pageShift)
      ensures Valid() && fresh(desc) && fresh(words)
      ensures table == InitialTable(g)
      ensures g.pageShift == pageShift && g.minShift == minShift && g.end == end
      ensures LaidOut(g, pool + header + DESC_SIZE * (pageShift - minShift), end - (pool + header))
    {
      var geo, m := Layout(pool, header, end, minShift, pageShift);
      g := geo;
      desc := new Desc[geo.tableLen + geo.RingCount()];
      words := new seq<Word>[geo.pages](i => seq(geo.PageSize() / 8, j requires 0 <= j => memory(i, j)));
      table := InitialTable(geo);
      new;
      InitTable(m);
      InitialTableOk(g);
      InitialMatches(g, desc[..], words[..]);
    }

    // ------------------------------------------------------------- pages

    method MarkBlock(page: nat, k: nat)
      requires 1 <= k < PAGE_START && page + k <= desc.Length
      modifies desc
      ensures desc[..] == Filled(old(desc[..]), page, k)
    {
      ghost var d1 := desc[..];
      TopBit(k, PAGE_START);
      desc[page] := Desc(Or(k, PAGE_START), NIL, NIL, TAG_PAGE);
      var pages := k - 1;
      var p := page + 1;
      while pages != 0
        invariant p + pages == page + k && page < p
        invariant desc[page] == Desc(k + PAGE_START, NIL, NIL, TAG_PAGE)
        invariant forall i | page < i < p :: desc[i] == Desc(BUSY, NIL, NIL, TAG_PAGE)
        invariant forall i | 0 <= i < desc.Length && !(page <= i < p) :: desc[i] == d1[i]
        decreases pages
      {
        desc[p] := Desc(BUSY, NIL, NIL, TAG_PAGE);
        p := p + 1;
        pages := pages - 1;
      }
      assert desc[..] == Filled(d1, page, k);
    }

    /** The run at `page`, found by the search, gives up its first k pages. */
    method TakeRun(page: nat, k: nat)
      requires page < desc.Length && 1 <= k <= desc[page].slab && k < PAGE_START
      requires page + desc[page].slab <= desc.Length
      requires 0 <= desc[page].prev < desc.Length && 0 <= desc[page].next < desc.Length
      requires desc[page].prev != page && desc[page].next != page
      modifies desc
      ensures desc[..] == Filled(Taken(old(desc[..]), page, k), page, k)
    {
      ghost var d0 := desc[..];
      if desc[page].slab > k {
        desc[page + k] := desc[page + k].(slab := desc[page].slab - k);
        desc[page + k] := desc[page + k].(next := desc[page].next);
        desc[page + k] := desc[page + k].(prev := desc[page].prev, tag := desc[page].tag);
        var p := desc[page].prev;
        desc[p] := desc[p].(next := page + k);
        var q := desc[page].next;
        desc[q] := desc[q].(prev := page + k, tag := TAG_PAGE);
      } else {
        var p := desc[page].prev;
        desc[p] := desc[p].(next := desc[page].next);
        var q := desc[page].next;
        desc[q] := desc[q].(prev := desc[page].prev, tag := desc[page].tag);
      }
      ghost var d1 := desc[..];
      assert d1 == Taken(d0, page, k);
      MarkBlock(page, k);
    }

    /** `ncx_slab_alloc_pages`: the index of the first page, or NIL. */
    method AllocPages(pages: nat) returns (page: int)
      requires Valid() && pages >= 1
      modifies `table, desc
      ensures Valid()
      ensures words[..] == old(words[..])
      ensures page == NIL || 0 <= page < g.pages
      ensures AllocRun(g, old(table), pages) == (table, if page < 0 then Failed else Got(page))
    {
      ghost var d0, w0, t0 := desc[..], words[..], table;
      ghost var free := table.rings[0];
      FreeListIsFree(g, table);
      assert RingAt(g.tableLen, d0, t0.rings, 0);
      page := desc[FreeList()].next;
      ghost var j := 0;
      while page != FreeList()
        invariant j <= |free| && page == At(g.tableLen, free, j)
        invariant page == FreeList() <==> j == |free|
        invariant forall i | 0 <= i < j :: t0.kinds[free[i]].len < pages
        invariant desc[..] == d0 && words[..] == w0 && table == t0
        decreases |free| - j
      {
        RunHead(g, d0, w0, t0, j);
        assert At(g.tableLen, free, j) == free[j];
        if desc[page].slab >= pages {
          CarvedOk(g, d0, w0, t0, j, pages);
          TakeRun(page, pages);
          CarvedMatches(g, d0, w0, t0, j, pages);
          CarveKeeps(g, t0, j, pages);
          table := Carve(t0, j, pages);
          return;
        }
        page := desc[page].next;
        j := j + 1;
      }
      page := NIL;
    }

    /** `prev->next = page->next; page->next->prev = page->prev;` */
    method UnlinkPage(page: nat)
      requires page < desc.Length
      requires 0 <= desc[page].prev < desc.Length && 0 <= desc[page].next < desc.Length
      requires desc[page].prev != page && desc[page].next != page
      modifies desc
      ensures desc[..] == Unlink(old(desc[..]), page)
    {
      var prev := desc[page].prev;
      desc[prev] := desc[prev].(next := desc[page].next);
      var next := desc[page].next;
      desc[next] := desc[next].(prev := desc[page].prev, tag := desc[page].tag);
    }

    method PushPage(s: nat, page: nat, tag: nat)
      requires page < desc.Length && s < desc.Length && 0 <= desc[s].next < desc.Length && s != page
      modifies desc
      ensures desc[..] == Push(old(desc[..]), s, page, tag)
    {
      desc[page] := desc[page].(next := desc[s].next);
      desc[page] := desc[page].(prev := s, tag := tag);
      var next := desc[page].next;
      desc[next] := desc[next].(prev := page, tag := tag);
      desc[s] := desc[s].(next := page);
    }

    /** The writes of `ncx_slab_free_pages`. */
    method ReturnRun(page: nat, pages: Word)
      requires page < g.tableLen < desc.Length && page + pages <= desc.Length && pages >= 1
      requires CanDetach(Wiped(desc[..], page, pages), page)
      requires 0 <= Detached(Wiped(desc[..], page, pages), page)[g.tableLen].next < desc.Length
      modifies desc
      ensures desc[..] == Released(old(desc[..]), g.tableLen, page, pages)
    {
      ghost var d0 := desc[..];
      desc[page] := desc[page].(slab := pages);
      forall i | page < i < page + pages {
        desc[i] := ZERO;
      }
      ghost var d1 := desc[..];
      assert d1 == Wiped(d0, page, pages);
      if desc[page].next != NIL {
        UnlinkPage(page);
      }
      ghost var d2 := desc[..];
      assert d2 == Detached(d1, page);
      PushPage(FreeList(), page, TAG_PAGE);
    }

    /** `ncx_slab_free_pages` */
    method FreePages(page: nat, pages: nat)
      requires Consistent() && page < g.pages
      requires !table.kinds[page].FreePart? && !table.kinds[page].BlockPart?
      requires pages == Span(table.kinds[page])
      modifies `table, desc
      ensures Consistent() && words[..] == old(words[..])
      ensures table == Release(g, old(table), page)
      ensures old(NoEmptySlab(g, table.kinds, page)) ==> Valid()
    {
      ghost var d0, t0 := desc[..], table;
      SpanFits(g, t0, page);
      ReleasedLinked(g, d0, words[..], t0, page);
      ReturnRun(page, pages);
      ReleasedMatches(g, d0, words[..], t0, page);
      ReleaseKeeps(g, t0, page);
      table := Release(g, t0, page);
    }

    // ------------------------------------------------- chunk from a list

    /** A page that has just become full leaves its list. */
    method RetirePage(page: nat, tag: nat)
      requires page < desc.Length
      requires 0 <= desc[page].prev < desc.Length && 0 <= desc[page].next < desc.Length
      requires desc[page].prev != page && desc[page].next != page
      modifies desc
      ensures desc[..] == Unlink(old(desc[..]), page)[page := Desc(old(desc[page].slab), NIL, NIL, tag)]
    {
      UnlinkPage(page);
      desc[page] := desc[page].(next := NIL);
      desc[page] := desc[page].(prev := NIL, tag := tag);
    }

    /** Scan the words of a SMALL page for a clear bit and set it.  The words
        before it were all seen to be BUSY, so only later ones are inspected to
        tell whether the page is full. */
    method MarkSmall(page: nat, map_: nat, ghost used: seq<bool>) returns (n: nat, i: nat, full: bool)
      requires page < words.Length && SmallMap(words[page], used)
      requires !Full(used) && |used| == 64 * map_
      modifies words
      ensures 64 * n + i == FirstClear(used) && i < 64
      ensures words[..] == old(words[..])[page := words[page]] && |words[page]| == |old(words[page])|
      ensures SmallMap(words[page], used[FirstClear(used) := true])
      ensures full <==> Full(used[FirstClear(used) := true])
    {
      ghost var w0 := words[page];
      n := NextNotBusy(words[page], 0, map_);
      if n < map_ {
        var m;
        m, i := LowestClearBit(words[page][n]);
        ScanFinds(w0, used, n, i);
        SmallSet(w0, used, n, i);
        words[page] := words[page][n := Or(words[page][n], m)];
        ghost var used1 := used[64 * n + i := true];
        full := false;
        if words[page][n] == BUSY {
          var k := NextNotBusy(words[page], n + 1, map_);
          if k == map_ {
            AllWordsBusy(words[page], used1);
            full := true;
          } else {
            SomeWordNotBusy(words[page], used1, k);
          }
        } else {
          SomeWordNotBusy(words[page], used1, n);
        }
        return;
      }
      AllWordsBusy(w0, used);
      assert false;
    }

    /** Address of chunk 64n + i; no shift loses a bit. */
    method SmallAddress(page: nat, shift: nat, n: nat, i: nat) returns (p: nat)
      requires g.Ok() && page < g.pages && g.IsClass(shift) && 64 * n + i < g.Chunks(shift)
      ensures p == Address(g, page, Scale(64 * n + i, shift)) <= ALL_ONES
    {
      SmallOffset(g, shift, n, i);
      AddressFits(g, page, shift, 64 * n + i);
      p := g.start + Shl(page, g.pageShift);
      p := p + (Shl(n * 64, shift) + Shl(i, shift));
    }

    /** Address of chunk c. */
    method ChunkAddress(page: nat, shift: nat, c: nat) returns (p: nat)
      requires g.Ok() && page < g.pages && g.IsClass(shift) && c < g.Chunks(shift)
      ensures p == Address(g, page, Scale(c, shift)) <= ALL_ONES
    {
      AddressFits(g, page, shift, c);
      p := Shl(page, g.pageShift);
      p := p + Shl(c, shift);
      p := p + g.start;
    }

    /** What each branch of the scan needs of the page it looks at. */
    predicate Scannable(page: nat, shift: nat, used: seq<bool>)
      reads desc, words
    {
      && g.Ok() && g.IsClass(shift)
      && page < g.pages && page < desc.Length && page < words.Length
      && 0 <= desc[page].prev < desc.Length && 0 <= desc[page].next < desc.Length
      && desc[page].prev != page && desc[page].next != page
      && !Full(used) && |used| == g.Chunks(shift)
      && KindMatch(g, desc[page].slab, ClassTag(g, shift), words[page], Slab(shift, used))
    }

    /** The state after the lowest free chunk of `page` was marked. */
    twostate predicate Marked(page: nat, shift: nat, used: seq<bool>, slab: Word, p: nat)
      reads desc, words
      requires old(Scannable(page, shift, used))
    {
      var used1 := used[FirstClear(used) := true];
      && desc[..] == AfterTake(g, old(desc[..]), page, slab, ClassTag(g, shift), Full(used1))
      && words[..] == old(words[..])[page := words[page]] && |words[page]| == |old(words[page])|
      && KindMatch(g, slab, ClassTag(g, shift), words[page], Slab(shift, used1))
      && p == Address(g, page, Scale(FirstClear(used), shift)) <= ALL_ONES
    }

    /** The SMALL branch: the first page of the list has a free chunk, so the
        scan never goes on to the next page. */
    method TakeSmall(page: nat, shift: nat, ghost used: seq<bool>) returns (p: nat, ghost slab: Word)
      requires Scannable(page, shift, used) && shift < g.ExactShift()
      modifies desc, words
      ensures Marked(page, shift, used, slab, p)
    {
      ReservedBounds(g, shift);
      var map_ := Pow2(g.pageShift - shift) / 64;
      var n, i, full := MarkSmall(page, map_, used);
      p := SmallAddress(page, shift, n, i);
      slab := desc[page].slab;
      if full {
        RetirePage(page, TAG_SMALL);
      }
    }

    /** The EXACT branch. */
    method TakeExact(page: nat, shift: nat, ghost used: seq<bool>) returns (p: nat, ghost slab: Word)
      requires Scannable(page, shift, used) && shift == g.ExactShift()
      modifies desc
      ensures Marked(page, shift, used, slab, p)
    {
      ExactBusy(desc[page].slab, used);
      var m, i := LowestClearBit(desc[page].slab);
      ExactScanned(desc[page].slab, used, i);
      ExactSet(desc[page].slab, used, i);
      desc[page] := desc[page].(slab := Or(desc[page].slab, m));
      slab := desc[page].slab;
      ExactBusy(slab, used[i := true]);
      if desc[page].slab == BUSY {
        RetirePage(page, TAG_EXACT);
      }
      p := ChunkAddress(page, shift, i);
    }

    /** The BIG branch; `mask` covers the chunks a page of this class has. */
    method TakeBig(page: nat, shift: nat, ghost used: seq<bool>) returns (p: nat, ghost slab: Word)
      requires Scannable(page, shift, used) && shift > g.ExactShift()
      modifies desc
      ensures Marked(page, shift, used, slab, p)
    {
      ReservedBounds(g, shift);
      BigShift(desc[page].slab, shift, used);
      var n := g.pageShift - And(desc[page].slab, SHIFT_MASK);
      n := Pow2(n);
      BigMaskFits(n);
      var mask := Shl(Pow2(n) - 1, MAP_SHIFT);
      BigFull(desc[page].slab, shift, used);
      if And(desc[page].slab, MAP_MASK) != mask {
        var m, i := LowestClearBigBit(desc[page].slab, mask, shift, used);
        BigScanBit(i);
        BigSet(desc[page].slab, shift, used, i);
        desc[page] := desc[page].(slab := Or(desc[page].slab, m));
        slab := desc[page].slab;
        BigFull(slab, shift, used[i := true]);
        if And(desc[page].slab, MAP_MASK) == mask {
          RetirePage(page, TAG_BIG);
        }
        p := ChunkAddress(page, shift, i);
        return;
      }
      assert false;
    }

    /** The page table catches up with the writes of a chunk allocation. */
    ghost method CommitTake(d0: seq<Desc>, w0: seq<seq<Word>>, t0: Table, shift: nat,
                            page: nat, slab: Word, w1: seq<Word>, full: bool)
      requires g.Ok() && Inv(g, t0) && Matches(g, d0, w0, t0) && WordsOk(g, w0) && g.IsClass(shift)
      requires t0.rings[1 + shift - g.minShift] != [] && page == t0.rings[1 + shift - g.minShift][0]
      requires page < |t0.kinds| && t0.kinds[page].Slab? && !Full(t0.kinds[page].used)
      requires page < |d0| && 0 <= d0[page].prev < |d0| && 0 <= d0[page].next < |d0|
      requires var k := TakeChunk(t0, 1 + shift - g.minShift).kinds[page];
               && KindMatch(g, slab, ClassTag(g, shift), w1, k)
               && (full <==> Full(k.used))
      requires page < |w0| && words[..] == w0[page := w1] && |w1| == |w0[page]|
      requires desc[..] == AfterTake(g, d0, page, slab, ClassTag(g, shift), full)
      modifies `table
      ensures Valid() && table == TakeChunk(t0, 1 + shift - g.minShift)
    {
      TakeChunkMatches(g, d0, w0, t0, 1 + shift - g.minShift, slab, w1);
      TakeChunkKeeps(g, t0, shift);
      table := TakeChunk(t0, 1 + shift - g.minShift);
    }

    /** The lowest free chunk of the first page on list r was handed out at p. */
    ghost predicate Took(t: Table, r: nat, u: Table, p: nat) {
      && r < |t.rings| && t.rings[r] != []
      && var page := t.rings[r][0];
         && 0 <= page < |t.kinds| && t.kinds[page].Slab? && !Full(t.kinds[page].used)
         && u == TakeChunk(t, r)
         && p == Address(g, page, Scale(FirstClear(t.kinds[page].used), t.kinds[page].shift))
    }
    /** `page->next != page`: a chunk of a page already on the class list. */
    method AllocFromList(slot: nat, shift: nat) returns (p: nat)
      requires Valid() && g.IsClass(shift) && slot == shift - g.minShift
      requires table.rings[1 + slot] != []
      modifies `table, desc, words
      ensures Valid() && Took(old(table), 1 + slot, table, p)
    {
      ghost var d0, w0, t0 := desc[..], words[..], table;
      PageToScan(g, d0, w0, t0, shift);
      var page := desc[SlotAt(slot)].next;
      ghost var used := t0.kinds[page].used;
      ghost var slab;
      if shift < g.ExactShift() {
        p, slab := TakeSmall(page, shift, used);
      } else if shift == g.ExactShift() {
        p, slab := TakeExact(page, shift, used);
      } else {
        p, slab := TakeBig(page, shift, used);
      }
      CommitTake(d0, w0, t0, shift, page, slab, words[page], Full(used[FirstClear(used) := true]));
    }

    // ------------------------------------------------- chunk from a new page

    /** Write the bitmap of a new SMALL page: the n chunks that hold the bitmap
        itself and the first one after them are in use. */
    method FreshBitmap(page: nat, shift: nat) returns (n: nat)
      requires g.Ok() && g.IsClass(shift) && shift < g.ExactShift()
      requires page < words.Length && |words[page]| == g.PageSize() / 8
      modifies words
      ensures n == g.Reserved(shift)
      ensures words[..] == old(words[..])[page := words[page]] && |words[page]| == g.PageSize() / 8
      ensures SmallMap(words[page], FirstUse(g, shift))
    {
      var s := Pow2(shift);
      ShiftsAreDivision(Pow2(g.pageShift - shift) / 8, shift);
      n := Pow2(g.pageShift - shift) / 8 / s;
      if n == 0 {
        n := 1;
      }
      ReservedBounds(g, shift);
      BitmapFits(g, shift);
      FreshWordFits(n);
      words[page] := words[page][0 := Scale(2, n) - 1];
      var map_ := Pow2(g.pageShift - shift) / 64;
      var i := 1;
      while i < map_
        invariant 1 <= i <= map_
        invariant |words[page]| == g.PageSize() / 8
        invariant words[page][0] == Scale(2, n) - 1
        invariant forall k | 1 <= k < i :: words[page][k] == 0
        invariant forall k | 0 <= k < words.Length && k != page :: words[k] == old(words[k])
      {
        words[page] := words[page][i := 0];
        i := i + 1;
      }
      SmallFresh(words[page], FirstUse(g, shift), n);
    }

    /** Link a page just taken as the only one of its class. */
    method OpenPage(page: nat, s: nat, slab: Word, tag: nat)
      requires page < desc.Length && s < desc.Length && s != page
      modifies desc
      ensures desc[..] == Opened(old(desc[..]), page, s, slab, tag)
    {
      desc[page] := desc[page].(slab := slab);
      desc[page] := desc[page].(next := s);
      desc[page] := desc[page].(prev := s, tag := tag);
      desc[s] := desc[s].(next := page);
    }

    /** The page table catches up with the writes that open a page. */
    ghost method CommitNew(d0: seq<Desc>, w0: seq<seq<Word>>, t0: Table, shift: nat,
                           page: nat, slab: Word, w1: seq<Word>)
      requires g.Ok() && Inv(g, t0) && Matches(g, d0, w0, t0) && WordsOk(g, w0) && g.IsClass(shift)
      requires page < |t0.kinds| && t0.kinds[page] == Block(1) && t0.rings[1 + shift - g.minShift] == []
      requires KindMatch(g, slab, ClassTag(g, shift), w1, Slab(shift, FirstUse(g, shift)))
      requires page < |w0| && words[..] == w0[page := w1] && |w1| == |w0[page]|
      requires page < |d0| && g.tableLen + 1 + shift - g.minShift < |d0|
      requires desc[..] == Opened(d0, page, g.tableLen + 1 + shift - g.minShift, slab, ClassTag(g, shift))
      modifies `table
      ensures Valid() && table == NewSlab(g, t0, page, shift)
    {
      NewSlabMatches(g, d0, w0, t0, page, shift, slab, w1);
      NewSlabKeeps(g, t0, page, shift);
      table := NewSlab(g, t0, page, shift);
    }

    /** Turn a page just taken into a page of class `shift`: its bitmap, its
        word and its links. */
    method WriteSlab(page: nat, slot: nat, shift: nat) returns (c: nat, slab: Word)
      requires g.Ok() && g.IsClass(shift) && slot == shift - g.minShift
      requires page < words.Length && |words[page]| == g.PageSize() / 8
      requires page < g.tableLen && SlotAt(slot) < desc.Length
      modifies desc, words
      ensures c == g.Reserved(shift)
      ensures KindMatch(g, slab, ClassTag(g, shift), words[page], Slab(shift, FirstUse(g, shift)))
      ensures words[..] == old(words[..])[page := words[page]] && |words[page]| == g.PageSize() / 8
      ensures desc[..] == Opened(old(desc[..]), page, SlotAt(slot), slab, ClassTag(g, shift))
    {
      ReservedBounds(g, shift);
      c := 0;
      if shift < g.ExactShift() {
        c := FreshBitmap(page, shift);
        slab := shift;
        OpenPage(page, SlotAt(slot), slab, TAG_SMALL);
      } else if shift == g.ExactShift() {
        slab := 1;
        ExactFresh(FirstUse(g, shift));
        OpenPage(page, SlotAt(slot), slab, TAG_EXACT);
      } else {
        BigFreshWord(shift, FirstUse(g, shift));
        slab := Or(MAP_FIRST, shift);
        OpenPage(page, SlotAt(slot), slab, TAG_BIG);
      }
    }

    /** Make a page just taken a page of class `shift` and hand out its first
        chunk. */
    method InitSlab(page: nat, slot: nat, shift: nat) returns (p: nat)
      requires Valid() && g.IsClass(shift) && slot == shift - g.minShift
      requires table.rings[1 + slot] == []
      requires page < g.pages && page < |table.kinds| && table.kinds[page] == Block(1)
      modifies `table, desc, words
      ensures Valid() && table == NewSlab(g, old(table), page, shift)
      ensures p == Address(g, page, Scale(g.Reserved(shift), shift))
    {
      ghost var d0, w0, t0 := desc[..], words[..], table;
      ReservedBounds(g, shift);
      var c, slab := WriteSlab(page, slot, shift);
      p := ChunkAddress(page, shift, c);
      CommitNew(d0, w0, t0, shift, page, slab, words[page]);
    }

    // ------------------------------------------------------------- allocate

    /** A request of at least half a page is rounded up to whole pages. */
    method AllocWhole(size: nat) returns (p: nat)
      requires Valid() && g.MaxSize() <= size <= ALL_ONES
      modifies `table, desc
      ensures Valid()
      ensures Alloc(g, old(table), size) == (table, if p == 0 then Failed else Got(p))
    {
      RoundUpPositive(g, size);
      RoundUpSplit(g, size);
      var page := AllocPages(Shr(size, g.pageShift) + if Low(size, g.pageShift) != 0 then 1 else 0);
      if page != NIL {
        PageAddressFits(g, page);
        p := Shl(page, g.pageShift);
        p := p + g.start;
      } else {
        p := 0;
      }
    }

    /** The list of the class first; a fresh page only when the list is empty. */
    method AllocClass(slot: nat, shift: nat) returns (p: nat)
      requires Valid() && g.IsClass(shift) && slot == shift - g.minShift
      modifies `table, desc, words
      ensures Valid()
      ensures AllocChunk(g, old(table), shift) == (table, if p == 0 then Failed else Got(p))
    {
      ghost var t0 := table;
      ListEmpty(g, desc[..], words[..], table, 1 + slot);
      var first := desc[SlotAt(slot)].next;
      if desc[first].next != first {
        FirstOnRing(g, t0, shift);
        p := AllocFromList(slot, shift);
        return;
      }
      var page := AllocPages(1);
      AllocRunKeeps(g, t0, 1);
      if page != NIL {
        p := InitSlab(page, slot, shift);
        return;
      }
      p := 0;
    }

    /** `ncx_slab_alloc_locked`: the address of the block, or 0. */
    method AllocLocked(size: nat) returns (p: nat)
      requires Valid() && size <= ALL_ONES
      modifies `table, desc, words
      ensures Valid()
      ensures Alloc(g, old(table), size) == (table, if p == 0 then Failed else Got(p))
    {
      if size >= g.MaxSize() {
        p := AllocWhole(size);
      } else {
        var shift, slot := SizeClass(g, size);
        p := AllocClass(slot, shift);
      }
    }

    // ----------------------------------------------------------------- free

    /** What each branch of `free` needs of the page it works on. */
    predicate Clearable(page: nat, shift: nat, used: seq<bool>)
      requires g.minShift <= shift
      reads desc, words
    {
      var s := SlotAt(shift - g.minShift);
      && g.Ok() && g.IsClass(shift)
      && page < g.pages && page < words.Length && s < desc.Length
      && 0 <= desc[s].next < desc.Length
      && (desc[page].next == NIL <==> Full(used))
      && |used| == g.Chunks(shift)
      && KindMatch(g, desc[page].slab, ClassTag(g, shift), words[page], Slab(shift, used))
    }

    /** The state after chunk c of `page` was cleared. */
    twostate predicate Cleared(page: nat, shift: nat, used: seq<bool>, c: nat, slab: Word)
      requires g.minShift <= shift && c < |used|
      requires old(Clearable(page, shift, used))
      reads desc, words
    {
      && desc[..] == AfterClear(old(desc[..]), page, SlotAt(shift - g.minShift), slab, ClassTag(g, shift), Full(used))
      && words[..] == old(words[..])[page := words[page]] && |words[page]| == |old(words[page])|
      && KindMatch(g, slab, ClassTag(g, shift), words[page], Slab(shift, used[c := false]))
    }

    /** The outcome of a branch: nothing happens to a misaligned pointer or a
        chunk that is not in use; otherwise that chunk is cleared. */
    twostate predicate ClearedAs(p: nat, shift: nat, used: seq<bool>, r: Verdict, slab: Word)
      requires g.Ok() && g.start <= p && g.IsClass(shift)
      requires old(Clearable(PageOf(g, p), shift, used))
      reads desc, words
    {
      var off := OffsetOf(g, p);
      var c := Shr(off, shift);
      && c < |used|
      && (r.Untouched? <==> Low(off, shift) != 0 || !used[c])
      && (r.Untouched? ==> desc[..] == old(desc[..]) && words[..] == old(words[..]))
      && (!r.Untouched? ==> Cleared(PageOf(g, p), shift, used, c, slab))
      && (!r.Untouched? ==> (r.Emptied? <==> Empty(used[c := false], g.Reserved(shift))))
    }

    method ClearSmallBit(page: nat, shift: nat, n: nat, m: Word, ghost c: nat, ghost used: seq<bool>)
      requires g.IsClass(shift) && Clearable(page, shift, used) && shift < g.ExactShift()
      requires c < |used| && n == c / 64 && m == Pow2(c % 64)
      modifies desc, words
      ensures Cleared(page, shift, used, c, old(desc[page].slab))
    {
      if desc[page].next == NIL {
        PushPage(SlotAt(shift - g.minShift), page, TAG_SMALL);
      }
      SmallClear(words[page], used, n, c % 64);
      words[page] := words[page][n := And(words[page][n], Not(m))];
    }

    /** Do only the reserved chunks of a SMALL page remain in use? */
    method SmallEmpty(page: nat, shift: nat, ghost used: seq<bool>) returns (empty: bool)
      requires g.Ok() && g.IsClass(shift) && shift < g.ExactShift()
      requires page < words.Length && SmallMap(words[page], used) && |used| == g.Chunks(shift)
      ensures empty <==> Empty(used, g.Reserved(shift))
    {
      ReservedBounds(g, shift);
      ShiftsAreDivision(Pow2(g.pageShift - shift) / 8, shift);
      var n := Pow2(g.pageShift - shift) / 8 / Pow2(shift);
      if n == 0 {
        n := 1;
      }
      WordsEmpty(words[page], used, n);
      if And(words[page][0], Not(Pow2(n) - 1)) != 0 {
        return false;
      }
      var map_ := Pow2(g.pageShift - shift) / 64;
      var busy := AnyNonZero(words[page], 1, map_);
      return !busy;
    }

    /** The SMALL branch of `free`. */
    method ClearSmall(page: nat, p: nat, ghost shift0: nat, ghost used: seq<bool>) returns (r: Verdict, ghost slab0: Word)
      requires g.Ok() && g.start <= p <= g.end && page == PageOf(g, p)
      requires g.IsClass(shift0) && Clearable(page, shift0, used) && shift0 < g.ExactShift()
      modifies desc, words
      ensures ClearedAs(p, shift0, used, r, slab0)
    {
      slab0 := desc[page].slab;
      WordShift(shift0);
      var shift := And(desc[page].slab, SHIFT_MASK);
      var c, aligned := DecodeChunk(g, p, shift);
      if !aligned {
        return Untouched, slab0;
      }
      ChunkBit(c);
      ShlOne(And(c, WORD_BITS - 1));
      var m := Shl(1, And(c, WORD_BITS - 1));
      var n := c / WORD_BITS;
      var at := BitmapPage(g, p);
      SmallTest(words[at], used, c);
      if And(words[at][n], m) != 0 {
        ClearSmallBit(at, shift, n, m, c, used);
        var empty := SmallEmpty(at, shift, used[c := false]);
        return if empty then Emptied else Kept, slab0;
      }
      return Untouched, slab0;
    }

    method ClearExactBit(page: nat, shift: nat, m: Word, ghost c: nat, ghost used: seq<bool>)
      requires g.IsClass(shift) && Clearable(page, shift, used) && shift == g.ExactShift()
      requires c < |used| && m == Pow2(c)
      modifies desc
      ensures page < desc.Length && Cleared(page, shift, used, c, desc[page].slab)
    {
      ExactBusy(desc[page].slab, used);
      ExactClear(desc[page].slab, used, c);
      if desc[page].slab == BUSY {
        PushPage(SlotAt(shift - g.minShift), page, TAG_EXACT);
      }
      desc[page] := desc[page].(slab := And(desc[page].slab, Not(m)));
    }

    /** The EXACT branch of `free`. */
    method ClearExact(page: nat, p: nat, ghost shift0: nat, ghost used: seq<bool>) returns (r: Verdict, ghost slab0: Word)
      requires g.Ok() && g.start <= p <= g.end && page == PageOf(g, p)
      requires g.IsClass(shift0) && Clearable(page, shift0, used) && shift0 == g.ExactShift()
      modifies desc, words
      ensures ClearedAs(p, shift0, used, r, slab0)
    {
      var slab := desc[page].slab;
      slab0 := slab;
      var shift := g.ExactShift();
      ReservedBounds(g, shift);
      var c, aligned := DecodeChunk(g, p, shift);
      ShlOne(c);
      var m := Shl(1, c);
      if !aligned {
        return Untouched, slab;
      }
      ExactTest(slab, used, c);
      if And(slab, m) != 0 {
        ClearExactBit(page, shift, m, c, used);
        slab0 := desc[page].slab;
        ExactBusy(slab0, used[c := false]);
        return if desc[page].slab != 0 then Kept else Emptied, slab0;
      }
      return Untouched, slab;
    }

    /** The BIG branch of `free`. */
    method ClearBig(page: nat, p: nat, ghost shift0: nat, ghost used: seq<bool>) returns (r: Verdict, ghost slab0: Word)
      requires g.Ok() && g.start <= p <= g.end && page == PageOf(g, p)
      requires g.IsClass(shift0) && Clearable(page, shift0, used) && shift0 > g.ExactShift()
      modifies desc, words
      ensures ClearedAs(p, shift0, used, r, slab0)
    {
      var slab := desc[page].slab;
      slab0 := slab;
      ReservedBounds(g, shift0);
      BigShift(slab, shift0, used);
      var shift := And(slab, SHIFT_MASK);
      var c, aligned := DecodeChunk(g, p, shift);
      if !aligned {
        return Untouched, slab;
      }
      ShlOne(c + MAP_SHIFT);
      var m := Shl(1, c + MAP_SHIFT);
      AndOneBit(slab, c + MAP_SHIFT);
      assert Bit(slab, c + MAP_SHIFT) == used[c];
      if And(slab, m) != 0 {
        if desc[page].next == NIL {
          PushPage(SlotAt(shift - g.minShift), page, TAG_BIG);
        }
        BigClear(slab, shift, used, c);
        desc[page] := desc[page].(slab := And(desc[page].slab, Not(m)));
        slab0 := desc[page].slab;
        BigEmpty(slab0, shift, used[c := false]);
        return if And(desc[page].slab, MAP_MASK) != 0 then Kept else Emptied, slab0;
      }
      return Untouched, slab;
    }

    /** The page table catches up with the writes that clear a chunk. */
    ghost method CommitClear(d0: seq<Desc>, w0: seq<seq<Word>>, t0: Table, page: nat, c: nat,
                             slab: Word, w1: seq<Word>)
      requires g.Ok() && Inv(g, t0) && Matches(g, d0, w0, t0) && WordsOk(g, w0)
      requires page < |t0.kinds| && t0.kinds[page].Slab? && g.IsClass(t0.kinds[page].shift)
      requires g.Reserved(t0.kinds[page].shift) <= c < |t0.kinds[page].used|
      requires var k := t0.kinds[page]; KindMatch(g, slab, ClassTag(g, k.shift), w1, Slab(k.shift, k.used[c := false]))
      requires page < |w0| && words[..] == w0[page := w1] && |w1| == |w0[page]|
      requires var k := t0.kinds[page];
               var s := SlotAt(k.shift - g.minShift);
               && page < |d0| && s < |d0| && s != page && 0 <= d0[s].next < |d0|
               && desc[..] == AfterClear(d0, page, s, slab, ClassTag(g, k.shift), Full(k.used))
      modifies `table
      ensures Consistent() && table == ClearChunk(g, t0, page, c) && NoEmptySlab(g, table.kinds, page)
    {
      assert KindOk(g, t0.kinds, page);
      ClearChunkMatches(g, d0, w0, t0, page, c, slab, w1);
      ClearChunkKeeps(g, t0, page, c);
      table := ClearChunk(g, t0, page, c);
    }

    /** A pointer into a slab page. */
    method FreeChunk(page: nat, p: nat)
      requires Valid() && g.start <= p <= g.end && page == PageOf(g, p)
      requires page < |table.kinds| && table.kinds[page].Slab? && MayFree(g, table, p)
      modifies `table, desc, words
      ensures Valid() && table == Dealloc(g, old(table), p)
    {
      ghost var d0, w0, t0 := desc[..], words[..], table;
      PageToClear(g, d0, w0, t0, page);
      ghost var shift, used := t0.kinds[page].shift, t0.kinds[page].used;
      ghost var c := Shr(OffsetOf(g, p), shift);
      var r: Verdict;
      ghost var slab;
      if desc[page].tag == TAG_SMALL {
        r, slab := ClearSmall(page, p, shift, used);
      } else if desc[page].tag == TAG_EXACT {
        r, slab := ClearExact(page, p, shift, used);
      } else {
        r, slab := ClearBig(page, p, shift, used);
      }
      if r.Untouched? {
        return;
      }
      CommitClear(d0, w0, t0, page, c, slab, words[page]);
      ClearedTable(g, t0, table, page, c);
      if r.Emptied? {
        FreePages(page, 1);
      }
    }

    /** `ncx_slab_free_locked`.  The caller may not name a chunk that holds a
        page's own bitmap, nor a page past the descriptor table. */
    method FreeLocked(p: nat)
      requires Valid() && MayFree(g, table, p)
      modifies `table, desc, words
      ensures Valid() && table == Dealloc(g, old(table), p)
    {
      if p < g.start || p > g.end {
        return;
      }
      var n := Shr(p - g.start, g.pageShift);
      var slab := desc[n].slab;
      var type_ := desc[n].tag;
      PageToFree(g, desc[..], words[..], table, n);
      if type_ != TAG_PAGE {
        FreeChunk(n, p);
        return;
      }
      PointerParts(g, p);
      if And(p, g.PageSize() - 1) != 0 {
        return;
      }
      if slab == 0 {
        return;
      }
      if slab == BUSY {
        return;
      }
      n := Shr(p - g.start, g.pageShift);
      var size := And(slab, Not(PAGE_START));
      FreePages(n, size);
    }

    // ------------------------------------------------- the caller's view

    /** `ncx_slab_alloc`: 0 and nothing changed, or a new block of the rounded
        size, inside the pool and clear of every other live block. */
    method SlabAlloc(size: nat) returns (p: nat)
      requires Valid() && size <= ALL_ONES
      modifies `table, desc, words
      ensures Valid()
      ensures p == 0 <==> OutOfMemory(g, old(table), size)
      ensures p == 0 ==> table == old(table)
      ensures p != 0 ==>
                && p !in old(Live(g, table))
                && Live(g, table) == old(Live(g, table))[p := Rounded(g, size)]
                && g.start <= p && p + Rounded(g, size) <= g.end
                && forall q | q in old(Live(g, table)) :: Apart(p, Rounded(g, size), q, old(Live(g, table))[q])
      ensures size <= Rounded(g, size) && FairSize(g, size, Rounded(g, size))
    {
      ghost var t0 := table;
      AllocRefines(g, t0, size);
      AllocFailsIff(g, t0, size);
      p := AllocLocked(size);
      if p != 0 {
        BlocksApart(g, table, p, p);
        forall q | q in Live(g, t0)
          ensures Apart(p, Rounded(g, size), q, Live(g, t0)[q])
        {
          BlocksApart(g, table, p, q);
        }
      }
    }

    /** `ncx_slab_free`: the block at p, if there is one, is gone; every other
        block stays.  A pointer to no block changes nothing, except that the
        head of a free run moves to the front of the free list. */
    method SlabFree(p: nat)
      requires Valid() && MayFree(g, table, p)
      modifies `table, desc, words
      ensures Valid()
      ensures Live(g, table) == old(Live(g, table)) - {p}
      ensures p !in old(Live(g, table)) ==>
                || table == old(table)
                || (p >= g.start && OffsetOf(g, p) == 0
                    && var page := PageOf(g, p);
                       && page < |old(table).kinds| && old(table).kinds[page].Free?
                       && |old(table).rings| > 0 && page in old(table).rings[0]
                       && table == MovedToFront(old(table), page))
    {
      DeallocRefines(g, table, p);
      FreeLocked(p);
    }

    /** The words are the callers' memory too: stores into a live block, and
        nothing else, leave the pool as it was. */
    twostate lemma CallerStoresKeep(p: int)
      requires old(Valid()) && p in old(Live(g, table))
      requires table == old(table) && desc[..] == old(desc[..])
      requires StoredIn(g, old(words[..]), words[..], p, old(Live(g, table))[p])
      ensures Valid()
    {
      StoresMissBitmaps(g, old(words[..]), words[..], table, p);
      BitmapsDecide(g, desc[..], old(words[..]), words[..], table);
    }

    // ----------------------------------------------------------------- stat

    /** Bytes in use in the slab page at `page`. */
    method SlabUsage(page: nat, ghost shift0: nat, ghost used: seq<bool>) returns (bytes: nat)
      requires g.Ok() && g.IsClass(shift0) && |used| == g.Chunks(shift0)
      requires page < desc.Length && page < words.Length && desc[page].tag == ClassTag(g, shift0)
      requires KindMatch(g, desc[page].slab, desc[page].tag, words[page], Slab(shift0, used))
      ensures bytes == BytesOf(g, Slab(shift0, used))
    {
      var slab := desc[page].slab;
      ReservedBounds(g, shift0);
      if desc[page].tag == TAG_SMALL {
        bytes := SmallUsage(words[page], Pow2(g.pageShift - slab) / 64, slab, used);
      } else if desc[page].tag == TAG_EXACT {
        bytes := ExactUsage(slab, g.ExactShift(), used);
      } else {
        BigShift(slab, shift0, used);
        var j := Pow2(g.pageShift - And(slab, SHIFT_MASK));
        BigMaskFits(j);
        bytes := BigUsage(slab, Shl(Pow2(j) - 1, MAP_SHIFT), And(slab, SHIFT_MASK), used);
      }
    }

    /** One step of the walk: the page at i, which starts a run. */
    method StatStep(i: nat, s: Stat) returns (s': Stat, span: nat)
      requires Valid() && i < g.pages && i < |table.kinds| && AtHead(table.kinds, i)
      ensures s' == Tally(g, s, table.kinds[i]) && span == Span(table.kinds[i])
    {
      RunToCount(g, desc[..], words[..], table, i);
      var slab := desc[i].slab;
      if desc[i].tag != TAG_PAGE {
        var b := SlabUsage(i, table.kinds[i].shift, table.kinds[i].used);
        span := 1;
        s' := s.(usedSize := s.usedSize + b);
        if desc[i].tag == TAG_SMALL {
          s' := s'.(bSmall := s.bSmall + b, pSmall := s.pSmall + 1);
        } else if desc[i].tag == TAG_EXACT {
          s' := s'.(bExact := s.bExact + b, pExact := s.pExact + 1);
        } else {
          s' := s'.(bBig := s.bBig + b, pBig := s.pBig + 1);
        }
      } else if desc[i].prev == NIL {
        span := And(slab, Not(PAGE_START));
        ScaleIsProduct(span, g.pageShift);
        var b := span * g.PageSize();
        s' := s.(usedSize := s.usedSize + b, bPage := s.bPage + b, pPage := s.pPage + span);
      } else {
        span := slab;
        s' := s.(freePage := s.freePage + slab);
        if slab > s.maxFreePages {
          s' := s'.(maxFreePages := slab);
        }
      }
    }

    /** The walk of `ncx_slab_stat`: it stands on every page that starts a run,
        once, in order, and on no other. */
    method Walk() returns (s: Stat, ghost visited: seq<int>)
      requires Valid()
      ensures Counted(g, table.kinds, |table.kinds|, s) && s.pages == g.pages
      ensures visited == HeadsBelow(table.kinds, |table.kinds|)
      ensures ByClass(g, table, s)
    {
      s := Stat(0, 0, 0, 0, 0, 0, 0, 0, 0, 0, 0, 0, 0, 0);
      PagesInPool(g);
      s := s.(pages := Shr(g.end - g.start, g.pageShift));
      StartsWithHead(g, table.kinds);
      visited := [];
      var i := 0;
      while i < s.pages
        invariant i <= g.pages && s.pages == g.pages == |table.kinds|
        invariant visited == HeadsBelow(table.kinds, i)
        invariant AtHead(table.kinds, i) && Counted(g, table.kinds, i, s)
        decreases g.pages - i
      {
        TallyCounts(g, table.kinds, i, s);
        SpanFits(g, table, i);
        OneHeadPerRun(g, table.kinds, i, Span(table.kinds[i]));
        visited := visited + [i];
        var span;
        s, span := StatStep(i, s);
        i := i + (span - 1);
        i := i + 1;
      }
      ReportByClass(g, table, s);
    }

    /** `ncx_slab_stat` */
    method Report() returns (s: Stat)
      requires Valid()
      ensures Counted(g, table.kinds, |table.kinds|, s) && ByClass(g, table, s)
      ensures s.pages == g.pages && s.poolSize == g.end - g.start && s.poolSize > 0
      ensures s.usedSize <= s.poolSize <= ALL_ONES
      ensures s.usedPct == UsedPct(s.usedSize, s.poolSize)
      ensures s.usedPct == s.usedSize * 100 / s.poolSize <==> s.usedSize * 100 <= ALL_ONES
    {
      PoolNotEmpty(g);
      ghost var visited;
      s, visited := Walk();
      CountersFit(g, table, |table.kinds|, s);
      s := s.(poolSize := g.end - g.start);
      PercentExactIff(s.usedSize, s.poolSize);
      s := s.(usedPct := UsedPct(s.usedSize, s.poolSize));
    }

  }
}