/** Size-class pages: handing out and taking back one chunk. */
module Chunks {
  import opened Lists
  import opened PageTable

  /** Position on its list of the class's first page, and the chunk taken from
      it: the lowest clear one.  The page leaves the list when that fills it. */
  function TakeChunk(t: Table, r: nat): Table
    requires r < |t.rings| && t.rings[r] != []
    requires var p := t.rings[r][0]; 0 <= p < |t.kinds| && t.kinds[p].Slab? && !Full(t.kinds[p].used)
  {
    var page := t.rings[r][0];
    var used := t.kinds[page].used;
    var used' := used[FirstClear(used) := true];
    Table(t.kinds[page := Slab(t.kinds[page].shift, used')],
          if Full(used') then t.rings[r := t.rings[r][1..]] else t.rings)
  }

  function FirstUse(g: Geo, shift: nat): (u: seq<bool>)
    requires g.ParamsOk() && g.IsClass(shift)
    ensures |u| == g.Chunks(shift)
  {
    seq(g.Chunks(shift), c => c <= g.Reserved(shift))
  }

  /** A page taken for a class: the reserved chunks and the first one after
      them are in use, and the page alone is on the class list. */
  function NewSlab(g: Geo, t: Table, page: int, shift: nat): Table
    requires g.ParamsOk() && g.IsClass(shift) && |t.rings| == g.RingCount()
    requires 0 <= page < |t.kinds|
  {
    Table(t.kinds[page := Slab(shift, FirstUse(g, shift))],
          t.rings[1 + shift - g.minShift := [page]])
  }

  /** Clear one chunk; a page that was full goes back to the front of its
      class list. */
  function ClearChunk(g: Geo, t: Table, page: int, c: nat): Table
    requires g.ParamsOk()
    requires 0 <= page < |t.kinds| && t.kinds[page].Slab? && c < |t.kinds[page].used|
    requires g.IsClass(t.kinds[page].shift) && |t.rings| == g.RingCount()
  {
    var Slab(shift, used) := t.kinds[page];
    var r := 1 + shift - g.minShift;
    Table(t.kinds[page := Slab(shift, used[c := false])],
          if Full(used) then t.rings[r := [page] + t.rings[r]] else t.rings)
  }

  /** Changing one slab page into another leaves the tiling alone. */
  lemma ReplaceSlabTiled(g: Geo, kinds: seq<Kind>, page: int, k: Kind)
    requires g.ParamsOk() && Tiled(g, kinds)
    requires 0 <= page < |kinds| && (kinds[page].Slab? || kinds[page] == Block(1))
    requires k.Slab? && KindOk(g, kinds[page := k], page)
    ensures Tiled(g, kinds[page := k])
  {
    var after := kinds[page := k];
    forall i | 0 <= i < |after|
      ensures KindOk(g, after, i)
    {
      assert KindOk(g, kinds, i);
    }
  }

  lemma ClearChunkKeeps(g: Geo, t: Table, page: int, c: nat)
    requires g.ParamsOk() && Shape(g, t)
    requires 0 <= page < |t.kinds| && t.kinds[page].Slab? && c < |t.kinds[page].used|
    requires KindOk(g, t.kinds, page) && c >= g.Reserved(t.kinds[page].shift)
    ensures Shape(g, ClearChunk(g, t, page, c))
    ensures NoEmptySlab(g, t.kinds, -1) ==> NoEmptySlab(g, ClearChunk(g, t, page, c).kinds, page)
  {
    var Slab(shift, used) := t.kinds[page];
    var own := 1 + shift - g.minShift;
    var u := ClearChunk(g, t, page, c);
    assert !u.kinds[page].used[c];
    assert KindOk(g, u.kinds, page);
    assert RingOf(g, u.kinds[page]) == own;
    assert forall p | 0 <= p < |t.kinds| && p != page :: RingOf(g, u.kinds[p]) == RingOf(g, t.kinds[p]);
    assert RingOf(g, t.kinds[page]) == if Full(used) then -1 else own;
    ReplaceSlabTiled(g, t.kinds, page, u.kinds[page]);
    forall r | 0 <= r < |u.rings|
      ensures RingOk(g, u.kinds, u.rings[r], r)
    {
      assert RingOk(g, t.kinds, t.rings[r], r);
      if r == own && Full(used) {
        assert u.rings[r][0] == page;
        assert forall p | p in t.rings[r] :: p in u.rings[r];
      }
    }
  }

  /** Clear a chunk and give the page back if only reserved chunks remain. */
  function ReleaseChunk(g: Geo, t: Table, page: int, c: nat): Table
    requires g.ParamsOk() && Shape(g, t)
    requires 0 <= page < |t.kinds| && t.kinds[page].Slab? && c < |t.kinds[page].used|
    requires KindOk(g, t.kinds, page) && c >= g.Reserved(t.kinds[page].shift)
  {
    var u := ClearChunk(g, t, page, c);
    ClearChunkKeeps(g, t, page, c);
    if Empty(u.kinds[page].used, g.Reserved(u.kinds[page].shift)) then Release(g, u, page) else u
  }

  /** A class list holds slab pages of that class with a free chunk. */
  lemma OnRing(g: Geo, t: Table, r: nat, p: int)
    requires g.ParamsOk() && Shape(g, t) && 0 < r < |t.rings| && p in t.rings[r]
    ensures 0 <= p < |t.kinds| && t.kinds[p].Slab?
    ensures t.kinds[p].shift == r - 1 + g.minShift && g.IsClass(t.kinds[p].shift) && !Full(t.kinds[p].used)
  {
    assert RingOk(g, t.kinds, t.rings[r], r);
  }

  lemma FirstOnRing(g: Geo, t: Table, shift: nat)
    requires g.ParamsOk() && Shape(g, t) && g.IsClass(shift)
    requires t.rings[1 + shift - g.minShift] != []
    ensures var p := t.rings[1 + shift - g.minShift][0];
            && 0 <= p < |t.kinds| && t.kinds[p].Slab?
            && t.kinds[p].shift == shift && !Full(t.kinds[p].used)
  {
    OnRing(g, t, 1 + shift - g.minShift, t.rings[1 + shift - g.minShift][0]);
  }

  lemma TakeChunkKeeps(g: Geo, t: Table, shift: nat)
    requires g.ParamsOk() && Inv(g, t) && g.IsClass(shift)
    requires t.rings[1 + shift - g.minShift] != []
    ensures var p := t.rings[1 + shift - g.minShift][0];
            0 <= p < |t.kinds| && t.kinds[p].Slab? && !Full(t.kinds[p].used)
    ensures Inv(g, TakeChunk(t, 1 + shift - g.minShift))
  {
    FirstOnRing(g, t, shift);
    var own := 1 + shift - g.minShift;
    var page := t.rings[own][0];
    var used := t.kinds[page].used;
    var c := FirstClear(used);
    var u := TakeChunk(t, own);
    assert KindOk(g, t.kinds, page);
    ReplaceSlabTiled(g, t.kinds, page, u.kinds[page]);
    forall r | 0 <= r < |u.rings|
      ensures RingOk(g, u.kinds, u.rings[r], r)
    {
      assert RingOk(g, t.kinds, t.rings[r], r);
      if r == own {
        RemoveAtMembers(t.rings[r], 0);
        assert t.rings[r][1..] == RemoveAt(t.rings[r], 0);
      }
    }
    ReservedBounds(g, shift);
    assert u.kinds[page].used[c];
  }

  lemma NewSlabKeeps(g: Geo, t: Table, page: int, shift: nat)
    requires g.ParamsOk() && Inv(g, t) && g.IsClass(shift)
    requires 0 <= page < |t.kinds| && t.kinds[page] == Block(1)
    requires t.rings[1 + shift - g.minShift] == []
    ensures Inv(g, NewSlab(g, t, page, shift))
  {
    ReservedBounds(g, shift);
    var own := 1 + shift - g.minShift;
    var u := NewSlab(g, t, page, shift);
    var used := FirstUse(g, shift);
    assert !used[|used| - 1];
    assert used[g.Reserved(shift)];
    assert u.kinds[page] == Slab(shift, used);
    assert KindOk(g, u.kinds, page);
    ReplaceSlabTiled(g, t.kinds, page, u.kinds[page]);
    forall r | 0 <= r < |u.rings|
      ensures RingOk(g, u.kinds, u.rings[r], r)
    {
      assert RingOk(g, t.kinds, t.rings[r], r);
      if r == own {
        assert page in u.rings[r];
      }
    }
  }

  lemma ReleaseChunkKeeps(g: Geo, t: Table, page: int, c: nat)
    requires g.ParamsOk() && Inv(g, t)
    requires 0 <= page < |t.kinds| && t.kinds[page].Slab? && c < |t.kinds[page].used|
    requires KindOk(g, t.kinds, page) && c >= g.Reserved(t.kinds[page].shift)
    ensures Inv(g, ReleaseChunk(g, t, page, c))
  {
    var u := ClearChunk(g, t, page, c);
    ClearChunkKeeps(g, t, page, c);
    if Empty(u.kinds[page].used, g.Reserved(u.kinds[page].shift)) {
      ReleaseKeeps(g, u, page);
    }
  }
}
