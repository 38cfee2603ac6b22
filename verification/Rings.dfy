/** Page descriptors and the circular doubly linked lists threaded through
    them.  A list is named by its sentinel; `Ring` says which pages are on it
    and in what order.  The `prev` field of a sentinel may be stale: the code
    never reads it, so `Ring` does not speak of it. */
module Rings {
  import opened Words
  import opened Lists

  /** `prev` and `tag` are the pointer and the two low bits of one word. */
  datatype Desc = Desc(slab: Word, next: int, prev: int, tag: nat)

  /** The null pointer. */
  const NIL: int := -1

  /** Element i of a list, or its sentinel at either end. */
  function At(s: int, l: seq<int>, i: int): int {
    if 0 <= i < |l| then l[i] else s
  }

  predicate Node(d: seq<Desc>, s: int, l: seq<int>, i: int)
    requires 0 <= i < |l| && 0 <= l[i] < |d|
  {
    d[l[i]].next == At(s, l, i + 1) && d[l[i]].prev == At(s, l, i - 1)
  }

  predicate Ring(d: seq<Desc>, s: int, l: seq<int>) {
    && 0 <= s < |d|
    && (forall i | 0 <= i < |l| :: 0 <= l[i] < |d|)
    && d[s].next == At(s, l, 0)
    && (forall i {:trigger Node(d, s, l, i)} | 0 <= i < |l| :: Node(d, s, l, i))
  }

  predicate RingAt(base: nat, d: seq<Desc>, rings: seq<seq<int>>, r: int)
    requires 0 <= r < |rings|
  {
    Ring(d, base + r, rings[r])
  }

  /** List r has sentinel `base + r`. */
  predicate Linked(base: nat, d: seq<Desc>, rings: seq<seq<int>>) {
    forall r {:trigger RingAt(base, d, rings, r)} | 0 <= r < |rings| :: RingAt(base, d, rings, r)
  }

  /** The lists share no page and hold each page once; sentinels are no pages. */
  predicate Separate(base: nat, rings: seq<seq<int>>) {
    && (forall r | 0 <= r < |rings| :: NoDup(rings[r]))
    && (forall r, x | 0 <= r < |rings| && x in rings[r] :: 0 <= x < base)
    && (forall r, q, x | 0 <= r < |rings| && 0 <= q < |rings| && x in rings[r] && x in rings[q] :: r == q)
  }

  /** x is on none of the lists. */
  predicate Off(rings: seq<seq<int>>, x: int) {
    forall r | 0 <= r < |rings| :: x !in rings[r]
  }

  // ------------------------------------------------------------- surgery

  /** `prev->next = page->next; page->next->prev = page->prev;` */
  function Unlink(d: seq<Desc>, x: int): (e: seq<Desc>)
    requires 0 <= x < |d| && 0 <= d[x].prev < |d| && 0 <= d[x].next < |d|
    ensures |e| == |d|
  {
    var a := d[d[x].prev := d[d[x].prev].(next := d[x].next)];
    a[d[x].next := a[d[x].next].(prev := d[x].prev, tag := d[x].tag)]
  }

  /** Put x at the front of the list with sentinel s. */
  function Push(d: seq<Desc>, s: int, x: int, tag: nat): (e: seq<Desc>)
    requires 0 <= x < |d| && 0 <= s < |d| && 0 <= d[s].next < |d|
    ensures |e| == |d|
  {
    var h := d[s].next;
    var a := d[x := d[x].(next := h, prev := s, tag := tag)];
    var b := a[h := a[h].(prev := x, tag := tag)];
    b[s := b[s].(next := x)]
  }

  /** y takes the place of x on its list. */
  function Swap(d: seq<Desc>, x: int, y: int): (e: seq<Desc>)
    requires 0 <= x < |d| && 0 <= y < |d| && 0 <= d[x].prev < |d| && 0 <= d[x].next < |d|
    ensures |e| == |d|
  {
    var a := d[y := d[y].(next := d[x].next, prev := d[x].prev, tag := d[x].tag)];
    var b := a[d[x].prev := a[d[x].prev].(next := y)];
    b[d[x].next := b[d[x].next].(prev := y, tag := 0)]
  }

  // ------------------------------------------------------------- lemmas

  lemma InTable(base: nat, rings: seq<seq<int>>, r: nat)
    requires Separate(base, rings) && r < |rings|
    ensures forall i | 0 <= i < |rings[r]| :: rings[r][i] in rings[r] && 0 <= rings[r][i] < base
  {
    forall i | 0 <= i < |rings[r]|
      ensures rings[r][i] in rings[r] && 0 <= rings[r][i] < base
    {
      var x := rings[r][i];
      assert x in rings[r];
    }
  }

  /** Neighbours of the j-th page of a list are in the table. */
  lemma Neighbours(base: nat, d: seq<Desc>, rings: seq<seq<int>>, r: nat, j: nat)
    requires Linked(base, d, rings) && r < |rings| && j < |rings[r]|
    ensures var x := rings[r][j];
            && 0 <= x < |d|
            && d[x].prev == At(base + r, rings[r], j - 1) && d[x].next == At(base + r, rings[r], j + 1)
            && 0 <= d[x].prev < |d| && 0 <= d[x].next < |d|
  {
    assert RingAt(base, d, rings, r);
    assert Node(d, base + r, rings[r], j);
  }

  /** A list stays a list if the links of its pages and the `next` of its
      sentinel stay. */
  lemma RingFrame(d: seq<Desc>, e: seq<Desc>, s: int, l: seq<int>)
    requires Ring(d, s, l) && |e| == |d|
    requires e[s].next == d[s].next
    requires forall x | x in l && 0 <= x < |d| :: e[x].next == d[x].next && e[x].prev == d[x].prev
    ensures Ring(e, s, l)
  {
    forall i | 0 <= i < |l|
      ensures Node(e, s, l, i)
    {
      assert Node(d, s, l, i);
      assert l[i] in l;
    }
  }

  lemma LinkedFrame(base: nat, d: seq<Desc>, e: seq<Desc>, rings: seq<seq<int>>)
    requires Linked(base, d, rings) && |e| == |d|
    requires forall x | 0 <= x < |d| && (x >= base || !Off(rings, x)) :: e[x].next == d[x].next && (x >= base || e[x].prev == d[x].prev)
    requires Separate(base, rings)
    ensures Linked(base, e, rings)
  {
    forall r | 0 <= r < |rings|
      ensures RingAt(base, e, rings, r)
    {
      assert RingAt(base, d, rings, r);
      assert forall x | x in rings[r] :: !Off(rings, x) && x < base;
      RingFrame(d, e, base + r, rings[r]);
    }
  }

  lemma UnlinkRing(d: seq<Desc>, s: int, l: seq<int>, j: nat)
    requires Ring(d, s, l) && NoDup(l) && s !in l && j < |l|
    requires 0 <= d[l[j]].prev < |d| && 0 <= d[l[j]].next < |d|
    ensures Ring(Unlink(d, l[j]), s, RemoveAt(l, j))
  {
    var e := Unlink(d, l[j]);
    var m := RemoveAt(l, j);
    assert Node(d, s, l, j);
    forall i | 0 <= i < |m|
      ensures Node(e, s, m, i)
    {
      var k := if i < j then i else i + 1;
      assert m[i] == l[k];
      assert Node(d, s, l, k);
    }
  }

  /** Neither a page of list r nor its neighbours there belong to list q. */
  lemma OtherRing(base: nat, rings: seq<seq<int>>, r: nat, q: nat, j: int)
    requires Separate(base, rings) && r < |rings| && q < |rings| && q != r
    ensures At(base + r, rings[r], j) !in rings[q] && At(base + r, rings[r], j) != base + q
    ensures At(base + r, rings[r], j - 1) !in rings[q] && At(base + r, rings[r], j - 1) != base + q
    ensures At(base + r, rings[r], j + 1) !in rings[q] && At(base + r, rings[r], j + 1) != base + q
  {
    InTable(base, rings, r);
  }

  lemma UnlinkLinked(base: nat, d: seq<Desc>, rings: seq<seq<int>>, r: nat, j: nat)
    requires Linked(base, d, rings) && Separate(base, rings)
    requires r < |rings| && j < |rings[r]|
    ensures var x := rings[r][j];
            && 0 <= x < |d| && 0 <= d[x].prev < |d| && 0 <= d[x].next < |d|
            && Linked(base, Unlink(d, x), rings[r := RemoveAt(rings[r], j)])
  {
    Neighbours(base, d, rings, r, j);
    var x := rings[r][j];
    var e := Unlink(d, x);
    var after := rings[r := RemoveAt(rings[r], j)];
    forall q | 0 <= q < |after|
      ensures RingAt(base, e, after, q)
    {
      assert RingAt(base, d, rings, q);
      if q == r {
        UnlinkRing(d, base + r, rings[r], j);
      } else {
        OtherRing(base, rings, r, q, j);
        RingFrame(d, e, base + q, rings[q]);
      }
    }
  }

  lemma PushRing(d: seq<Desc>, s: int, l: seq<int>, x: int, tag: nat)
    requires Ring(d, s, l) && NoDup(l) && s !in l && x !in l && x != s && 0 <= x < |d|
    requires 0 <= d[s].next < |d|
    ensures Ring(Push(d, s, x, tag), s, [x] + l)
  {
    var e := Push(d, s, x, tag);
    var m := [x] + l;
    forall i | 0 <= i < |m|
      ensures Node(e, s, m, i)
    {
      if i > 0 {
        assert m[i] == l[i - 1];
        assert Node(d, s, l, i - 1);
      }
    }
  }

  lemma PushLinked(base: nat, d: seq<Desc>, rings: seq<seq<int>>, r: nat, x: int, tag: nat)
    requires Linked(base, d, rings) && Separate(base, rings) && r < |rings|
    requires 0 <= x < base && Off(rings, x)
    ensures base + r < |d| && x < |d| && d[base + r].next == At(base + r, rings[r], 0)
    ensures 0 <= d[base + r].next < |d|
    ensures Linked(base, Push(d, base + r, x, tag), rings[r := [x] + rings[r]])
  {
    assert RingAt(base, d, rings, r);
    var e := Push(d, base + r, x, tag);
    var after := rings[r := [x] + rings[r]];
    forall q | 0 <= q < |after|
      ensures RingAt(base, e, after, q)
    {
      assert RingAt(base, d, rings, q);
      if q == r {
        PushRing(d, base + r, rings[r], x, tag);
      } else {
        OtherRing(base, rings, r, q, 0);
        RingFrame(d, e, base + q, rings[q]);
      }
    }
  }

  lemma SwapRing(d: seq<Desc>, s: int, l: seq<int>, j: nat, y: int)
    requires Ring(d, s, l) && NoDup(l) && s !in l && j < |l| && y !in l && y != s && 0 <= y < |d|
    requires 0 <= d[l[j]].prev < |d| && 0 <= d[l[j]].next < |d|
    ensures Ring(Swap(d, l[j], y), s, l[j := y])
  {
    var e := Swap(d, l[j], y);
    var m := l[j := y];
    assert Node(d, s, l, j);
    forall i | 0 <= i < |m|
      ensures Node(e, s, m, i)
    {
      assert Node(d, s, l, i);
    }
  }

  lemma SwapLinked(base: nat, d: seq<Desc>, rings: seq<seq<int>>, r: nat, j: nat, y: int)
    requires Linked(base, d, rings) && Separate(base, rings)
    requires r < |rings| && j < |rings[r]| && 0 <= y < base && Off(rings, y)
    ensures var x := rings[r][j];
            && 0 <= x < |d| && y < |d| && 0 <= d[x].prev < |d| && 0 <= d[x].next < |d|
            && Linked(base, Swap(d, x, y), rings[r := rings[r][j := y]])
  {
    Neighbours(base, d, rings, r, j);
    assert RingAt(base, d, rings, r);
    var e := Swap(d, rings[r][j], y);
    var after := rings[r := rings[r][j := y]];
    forall q | 0 <= q < |after|
      ensures RingAt(base, e, after, q)
    {
      assert RingAt(base, d, rings, q);
      if q == r {
        SwapRing(d, base + r, rings[r], j, y);
      } else {
        OtherRing(base, rings, r, q, j);
        RingFrame(d, e, base + q, rings[q]);
      }
    }
  }
}
