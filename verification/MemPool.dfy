/** lib/cc_mem_pool.c: per type, a doubly linked list of nodes whose `data`
    pointers, from the head to a moving tail, are the stack of buffers at
    hand.  Each locked section is one step. */
module MemPool {
  import opened BufferStack

  /** uint8_t, the type that heads every buffer. */
  type TypeByte = b: nat | b < 0x100

  /** A malloc'ed buffer: a type byte followed by the caller's bytes.  The
      pointer callers hold is one past the type byte; here it is the object. */
  class Buffer {
    var typeByte: TypeByte

    constructor ()
    {
    }
  }

  class Node {
    var data: Buffer?
    var rawData: Buffer?
    var next: Node?
    var pre: Node?

    constructor ()
    {
      data, rawData, next, pre := null, null, null, null;
    }
  }

  /** A node with a buffer of its own, its type byte set. */
  method NewNode(t: TypeByte) returns (p: Node, b: Buffer)
    ensures fresh(p) && fresh(b)
    ensures p.data == p.rawData == b && b.typeByte == t && p.next == null && p.pre == null
  {
    p := new Node();
    b := new Buffer();
    p.data := b;
    p.rawData := p.data;
    b.typeByte := t;
    p.next := null;
    p.pre := null;
  }

  /** No buffer is the null pointer. */
  function Pointer(o: Option<Buffer>): Buffer? {
    match o
    case None => null
    case Some(b) => b
  }

  /** What clean_mem_list prints about one list, and the pointers it freed. */
  datatype Report = Report(nodes: nat, inUse: int, freed: seq<Buffer>)

  class MemList {
    var head: Node?
    var tail: Node?
    var type_: TypeByte
    var valid: bool
    ghost var nodes: seq<Node>
    ghost var pool: Pool<Buffer>

    /** Buffers and nodes of the list. */
    ghost function Footprint(): set<object>
      reads this
    {
      (set n | n in nodes) + (set b | b in pool.all)
    }

    /** The links of the list: `nodes` in order from head, both ways. */
    ghost predicate Linked()
      reads this, nodes
    {
      && Distinct(nodes)
      && (head == if nodes == [] then null else nodes[0])
      && (forall i {:trigger nodes[i].next} | 0 <= i < |nodes| ::
            nodes[i].next == if i + 1 < |nodes| then nodes[i + 1] else null)
      && (forall i {:trigger nodes[i].pre} | 0 <= i < |nodes| ::
            nodes[i].pre == if i > 0 then nodes[i - 1] else null)
    }

    /** An initialised list represents `pool`, sound or not.  Nodes up to the
        tail hold the stack, later ones hold nothing; every node remembers the
        buffer it was created with. */
    ghost predicate Listed()
      reads this, nodes, pool.all
    {
      && valid && Linked()
      && Distinct(pool.all) && |nodes| == |pool.all| >= 2
      && 1 <= |pool.stack| <= |pool.all|
      && tail == nodes[|pool.stack| - 1]
      && (forall i {:trigger nodes[i].data} | 0 <= i < |nodes| ::
            nodes[i].data == if i < |pool.stack| then pool.stack[i] else null)
      && (forall i {:trigger nodes[i].rawData} | 0 <= i < |nodes| :: nodes[i].rawData == pool.all[i])
      && (forall b | b in pool.all :: b.typeByte == type_)
    }

    /** Before initialisation and after cleaning there is no head. */
    ghost predicate Valid()
      reads this, nodes, pool.all
    {
      if valid then Listed() else head == null
    }

    /** The buffers at hand are different ones of the list's own. */
    ghost predicate Sound()
      reads this
    {
      valid ==> Inv(pool)
    }

    constructor ()
      ensures Valid() && !valid && nodes == [] && pool == Pool([], [])
    {
      head, tail, type_, valid := null, null, 0, false;
      nodes, pool := [], Pool([], []);
    }

    /** `new_mem_node` */
    method New() returns (prt: Buffer?)
      requires Valid()
      modifies this, nodes
      ensures Valid() && valid == old(valid) && nodes == old(nodes) && type_ == old(type_)
      ensures old(Sound()) ==> Sound()
      ensures !valid ==> prt == null && pool == old(pool)
      ensures valid ==> pool == Take(old(pool)).0 && prt == Pointer(Take(old(pool)).1)
    {
      prt := null;
      if head == null {
        return;
      }
      if tail != head {
        TakeSound(pool);
        prt := tail.data;
        tail.data := null;
        tail := tail.pre;
        pool := Take(pool).0;
      }
    }

    /** The locked part of `free_mem_node`, on the list the type byte names, for
        any buffer whatever.  A sound list stays sound exactly when the buffer
        was outstanding, or the return is ignored for want of an empty node. */
    method Free(addr: Buffer)
      requires Listed()
      modifies this, nodes
      ensures Listed() && nodes == old(nodes) && type_ == old(type_)
      ensures pool == Give(old(pool), addr)
      ensures old(Sound()) ==>
                (Sound() <==> addr in old(Outstanding(pool)) || |old(pool.stack)| == |old(pool.all)|)
    {
      GiveSound(pool, addr);
      if tail.next != null {
        tail := tail.next;
        tail.data := addr;
        pool := Give(pool, addr);
      }
    }

    /** The same buffer freed twice, then two requests: the first gets it, and
        so does the second exactly when another buffer was out as well. */
    method FreeTwice(addr: Buffer) returns (a: Buffer?, b: Buffer?)
      requires Listed() && Sound() && addr in Outstanding(pool)
      modifies this, nodes
      ensures a == addr
      ensures b == addr <==> |old(Outstanding(pool))| >= 2
    {
      DoubleReturnIff(pool, addr);
      Free(addr);
      Free(addr);
      a := New();
      b := New();
    }

    /** While the list is being built every node holds its own buffer. */
    ghost predicate Filling()
      reads this, nodes, pool.all
    {
      && Linked()
      && pool == Fresh(pool.all) && Distinct(pool.all) && |nodes| == |pool.all|
      && (forall i {:trigger nodes[i].data} | 0 <= i < |nodes| :: nodes[i].data == pool.all[i])
      && (forall i {:trigger nodes[i].rawData} | 0 <= i < |nodes| :: nodes[i].rawData == pool.all[i])
      && (forall b | b in pool.all :: b.typeByte == type_)
    }

    /** Link a node: the first one becomes head and tail, later ones go right
        after the head. */
    method Insert(p: Node)
      requires Linked() && p !in nodes && p.next == null && p.pre == null
      requires nodes != [] ==> tail == nodes[0]
      modifies this, p`next, p`pre, nodes
      ensures nodes == Second(old(nodes), p) && tail == nodes[0]
      ensures Linked() && valid == old(valid) && type_ == old(type_) && pool == old(pool)
      ensures forall n | n in nodes :: n.data == old(n.data) && n.rawData == old(n.rawData)
    {
      if head == null {
        head := p;
        tail := p;
        nodes := [p];
        return;
      }
      p.next := head.next;
      head.next := p;
      p.pre := head;
      if p.next != null {
        assert p.next == nodes[1];
        p.next.pre := p;
      }
      nodes := Second(nodes, p);
    }

    /** One round of the building loop. */
    method AddNode(t: TypeByte)
      requires Filling() && type_ == t && (nodes != [] ==> tail == nodes[0])
      modifies this, nodes
      ensures |nodes| == |old(nodes)| + 1
      ensures Filling() && type_ == t && valid == old(valid) && tail == nodes[0]
      ensures forall n | n in nodes :: n in old(nodes) || fresh(n)
      ensures forall b | b in pool.all :: b in old(pool).all || fresh(b)
    {
      var p, b := NewNode(t);
      ghost var all, before := pool.all, nodes;
      SecondDistinct(all, b);
      SecondDistinct(before, p);
      Insert(p);
      pool := Fresh(Second(all, b));
    }

    /** `while (plist->tail->next) plist->tail = plist->tail->next;` */
    method FindTail()
      requires Filling() && valid && |nodes| >= 2 && tail == nodes[0]
      modifies `tail
      ensures Listed() && Sound()
      ensures valid && type_ == old(type_) && pool == old(pool) && nodes == old(nodes)
    {
      ghost var k := 0;
      while tail.next != null
        invariant Filling() && k < |nodes| && tail == nodes[k]
        decreases |nodes| - k
      {
        tail := tail.next;
        k := k + 1;
      }
    }

    /** `init_mem_list`: a list of length + 1 nodes, all filled; the buffer of
        the head is never handed out. */
    method Init(t: TypeByte, size: int, length: int) returns (ok: bool)
      requires Valid()
      modifies this
      ensures Valid() && (old(Sound()) ==> Sound())
      ensures ok <==> t != 0 && size > 0 && length > 0
      ensures !ok || old(valid) ==> pool == old(pool) && nodes == old(nodes) && valid == old(valid) && type_ == old(type_)
      ensures ok && !old(valid) ==>
                && valid && type_ == t && fresh(Footprint())
                && |pool.all| == length + 1 && pool == Fresh(pool.all)
    {
      if t == 0 || size <= 0 || length <= 0 {
        return false;
      }
      if valid {
        return true;
      }
      valid := true;
      type_ := t;
      nodes, pool := [], Pool([], []);
      var i := 0;
      while i < length + 1
        invariant 0 <= i <= length + 1 && valid && type_ == t
        invariant nodes != [] ==> tail == nodes[0]
        invariant forall n | n in nodes :: fresh(n)
        invariant forall b | b in pool.all :: fresh(b)
        invariant Filling() && |nodes| == i
      {
        assert forall j | 0 <= j < |nodes| :: nodes[j] in nodes;
        AddNode(t);
        i := i + 1;
      }
      FindTail();
      valid := true;
      return true;
    }

    /** The body of `clean_mem_list` for one list.  Whatever was freed, and in
        whatever order, each original buffer is freed once. */
    method Clean() returns (r: Report)
      requires Listed()
      modifies this
      ensures Valid() && !valid && type_ == old(type_) && nodes == old(nodes) && pool == old(pool)
      ensures r.freed == old(pool.all) && Distinct(r.freed)
      ensures r.nodes == |old(nodes)|
      ensures r.inUse == |old(pool.all)| - |old(pool.stack)|
      ensures old(Sound()) ==> r.inUse == |old(Outstanding(pool))|
    {
      if Inv(pool) { Conservation(pool); }
      valid := false;
      var left := -1;
      var num := 0;
      var freed: seq<Buffer> := [];
      while head != null
        invariant num <= |nodes| && nodes == old(nodes) && pool == old(pool) && tail == old(tail) && type_ == old(type_) && !valid
        invariant head == if num < |nodes| then nodes[num] else null
        invariant freed == pool.all[..num]
        invariant left == if num < |pool.stack| then -1 else num - |pool.stack| + 1
        decreases |nodes| - num
      {
        var p := head;
        if p == tail {
          left := 0;
        }
        head := head.next;
        num := num + 1;
        if left >= 0 {
          left := left + 1;
        }
        if p.rawData != null {
          freed := freed + [p.rawData];
        }
      }
      r := Report(num, left - 1, freed);
    }
  }

  /** MAX_MEM_LIST */
  const LISTS: nat := 256

  /** The static array `mem_list`, indexed by type byte. */
  class Pools {
    const lists: seq<MemList>
    ghost var repr: set<object>

    /** `init_all_mem_list`: no list is initialised. */
    constructor ()
      ensures Valid() && Sound() && forall i | 0 <= i < LISTS :: !lists[i].valid
    {
      var all: seq<MemList> := [];
      while |all| < LISTS
        invariant |all| <= LISTS
        invariant forall i {:trigger all[i]} | 0 <= i < |all| ::
                    all[i].Valid() && !all[i].valid && all[i].nodes == [] && all[i].pool == Pool([], [])
        invariant forall i, j | 0 <= i < j < |all| :: all[i] != all[j]
        invariant forall i | 0 <= i < |all| :: fresh(all[i])
      {
        var l := new MemList();
        all := all + [l];
      }
      lists := all;
      repr := set l | l in all;
    }

    ghost predicate Apart(i: int, j: int)
      requires 0 <= i < |lists| && 0 <= j < |lists|
      reads lists[i], lists[j]
    {
      lists[i] != lists[j] && forall n | n in lists[i].nodes :: n !in lists[j].nodes
    }

    /** List i represents its pool and, once initialised, carries its own index. */
    ghost predicate ListOk(i: int)
      requires 0 <= i < |lists|
      reads lists[i], lists[i].nodes, lists[i].pool.all
    {
      lists[i].Valid() && (lists[i].valid ==> lists[i].type_ == i)
    }

    ghost predicate Valid()
      reads this, repr
    {
      && |lists| == LISTS
      && (forall i {:trigger lists[i]} | 0 <= i < LISTS ::
            && lists[i] in repr
            && (forall k | 0 <= k < |lists[i].nodes| :: lists[i].nodes[k] in repr)
            && (forall k | 0 <= k < |lists[i].pool.all| :: lists[i].pool.all[k] in repr))
      && (forall i {:trigger ListOk(i)} | 0 <= i < LISTS :: ListOk(i))
      && (forall i, j {:trigger Apart(i, j)} | 0 <= i < LISTS && 0 <= j < LISTS && i != j :: Apart(i, j))
    }

    /** Nothing of list i changed. */
    twostate predicate Same(i: int)
      requires 0 <= i < |lists|
      reads lists[i]
    {
      lists[i].pool == old(lists[i].pool) && lists[i].nodes == old(lists[i].nodes) && lists[i].valid == old(lists[i].valid)
    }

    /** A step on list t that only touches t and its nodes leaves the other
        lists alone, and the array goes on representing its pools. */
    twostate lemma OthersKept(t: nat)
      requires t < LISTS && old(Valid()) && repr == old(repr) && lists[t].pool.all == old(lists[t].pool).all
      requires ListOk(t) && lists[t].nodes == old(lists[t].nodes)
      requires forall l | l in lists && l != lists[t] :: unchanged(l)
      requires forall l, n | l in lists && l != lists[t] && n in l.nodes && n !in old(lists[t].nodes) :: unchanged(n)
      requires forall l, b | l in lists && b in old(l.pool).all :: unchanged(b)
      ensures Valid()
      ensures forall i | 0 <= i < LISTS && i != t :: Same(i)
    {
      forall i | 0 <= i < LISTS && i != t
        ensures lists[i] != lists[t] && unchanged(lists[i]) && ListOk(i)
      {
        assert old(Apart(i, t)) && old(ListOk(i));
        var l := lists[i];
        assert l in lists;
        forall k | 0 <= k < |l.nodes|
          ensures unchanged(l.nodes[k])
        {
          assert l.nodes[k] in l.nodes;
        }
        forall k | 0 <= k < |l.pool.all|
          ensures unchanged(l.pool.all[k])
        {
          assert l.pool.all[k] in l.pool.all;
        }
      }
      forall i, j | 0 <= i < LISTS && 0 <= j < LISTS && i != j
        ensures Apart(i, j)
      {
        assert old(Apart(i, j));
      }
    }

    /** Every list is sound. */
    ghost predicate Sound()
      reads this, lists
    {
      forall i | 0 <= i < |lists| :: lists[i].Sound()
    }

    /** `new_mem_node` */
    method NewMemNode(type_: TypeByte) returns (prt: Buffer?)
      requires Valid()
      modifies lists[type_], lists[type_].nodes
      ensures Valid() && (old(Sound()) ==> Sound())
      ensures !old(lists[type_].valid) ==> prt == null && Same(type_)
      ensures old(lists[type_].valid) ==>
                lists[type_].pool == Take(old(lists[type_].pool)).0 && prt == Pointer(Take(old(lists[type_].pool)).1)
      ensures forall i | 0 <= i < LISTS && i != type_ :: Same(i)
    {
      assert ListOk(type_);
      prt := lists[type_].New();
      OthersKept(type_);
      assert forall i | 0 <= i < LISTS && i != type_ :: Same(i);
    }

    /** `free_mem_node`: the buffer's own type byte picks the list, whatever the
        buffer.  An outstanding buffer goes back to the list it came from, and
        sound lists stay sound exactly when it was outstanding there or the
        return is ignored. */
    method FreeMemNode(addr: Buffer)
      requires Valid() && lists[addr.typeByte].valid
      modifies lists[addr.typeByte], lists[addr.typeByte].nodes
      ensures Valid() && addr.typeByte == old(addr.typeByte)
      ensures lists[addr.typeByte].pool == Give(old(lists[addr.typeByte].pool), addr)
      ensures forall i | 0 <= i < LISTS && i != addr.typeByte :: Same(i)
      ensures forall i | 0 <= i < LISTS && old(lists[i].valid && addr in Outstanding(lists[i].pool)) :: addr.typeByte == i
      ensures old(Sound()) ==>
                (Sound() <==> addr in old(Outstanding(lists[addr.typeByte].pool))
                              || |old(lists[addr.typeByte].pool.stack)| == |old(lists[addr.typeByte].pool.all)|)
    {
      var type_ := addr.typeByte;
      forall i | 0 <= i < LISTS && lists[i].valid && addr in Outstanding(lists[i].pool)
        ensures type_ == i
      {
        assert ListOk(i);
      }
      assert ListOk(type_);
      lists[type_].Free(addr);
      OthersKept(type_);
      assert forall i | 0 <= i < LISTS && i != type_ :: Same(i);
    }

    twostate lemma InitKept(t: nat)
      requires t < LISTS && old(Valid()) && old(repr) <= repr && lists[t].Footprint() <= repr
      requires ListOk(t)
      requires forall l | l in lists && l != lists[t] :: unchanged(l)
      requires forall l, n | l in lists && n in old(l.nodes) :: unchanged(n)
      requires forall l, b | l in lists && b in old(l.pool).all :: unchanged(b)
      requires lists[t].nodes == old(lists[t].nodes) || forall n | n in lists[t].nodes :: fresh(n)
      ensures Valid()
      ensures forall i | 0 <= i < LISTS && i != t :: Same(i)
    {
      forall i | 0 <= i < LISTS && i != t
        ensures lists[i] != lists[t] && unchanged(lists[i]) && ListOk(i)
      {
        assert old(Apart(i, t)) && old(ListOk(i));
        var l := lists[i];
        assert l in lists;
        forall k | 0 <= k < |l.nodes|
          ensures unchanged(l.nodes[k])
        {
          assert l.nodes[k] in l.nodes;
        }
        forall k | 0 <= k < |l.pool.all|
          ensures unchanged(l.pool.all[k])
        {
          assert l.pool.all[k] in l.pool.all;
        }
      }
      forall i, j | 0 <= i < LISTS && 0 <= j < LISTS && i != j
        ensures Apart(i, j)
      {
        assert old(Apart(i, j));
        assert old(ListOk(i)) && old(ListOk(j));
      }
    }

    /** `init_mem_list` for one type. */
    method InitMemList(type_: TypeByte, size: int, length: int) returns (ok: bool)
      requires Valid()
      modifies `repr, lists[type_]
      ensures Valid() && (old(Sound()) ==> Sound())
      ensures ok <==> type_ != 0 && size > 0 && length > 0
      ensures ok && !old(lists[type_].valid) ==>
                && lists[type_].valid && |lists[type_].pool.all| == length + 1
                && lists[type_].pool == Fresh(lists[type_].pool.all)
      ensures !ok || old(lists[type_].valid) ==> Same(type_)
      ensures forall i | 0 <= i < LISTS && i != type_ :: Same(i)
    {
      assert ListOk(type_);
      ok := lists[type_].Init(type_, size, length);
      repr := repr + lists[type_].Footprint();
      assert forall n | n in lists[type_].nodes :: n in lists[type_].Footprint();
      InitKept(type_);
      assert forall i | 0 <= i < LISTS && i != type_ :: Same(i);
    }

    /** `clean_mem_list`: one report per initialised list.  Every buffer the
        list was created with is freed once, in whatever order frees came, and
        the reported number in use is the number outstanding. */
    method CleanMemList() returns (reports: map<nat, Report>)
      requires Valid()
      modifies lists
      ensures Valid() && Sound() && forall i | 0 <= i < LISTS :: !lists[i].valid
      ensures forall i: nat :: i in reports <==> i < LISTS && old(lists[i].valid)
      ensures forall i: nat | i in reports ::
                && reports[i].freed == old(lists[i].pool).all
                && reports[i].nodes == |old(lists[i].nodes)|
                && (old(lists[i].Sound()) ==> reports[i].inUse == |old(Outstanding(lists[i].pool))|)
    {
      reports := map[];
      var i := 0;
      while i < LISTS
        invariant 0 <= i <= LISTS
        invariant forall k | i <= k < LISTS :: unchanged(lists[k])
        invariant forall k | 0 <= k < i :: !lists[k].valid && lists[k].head == null
        invariant forall k | 0 <= k < LISTS :: lists[k].nodes == old(lists[k].nodes) && lists[k].pool == old(lists[k].pool)
        invariant forall k: nat :: k in reports <==> k < i && old(lists[k].valid)
        invariant forall k: nat | k in reports ::
                    && reports[k].freed == old(lists[k].pool).all
                    && reports[k].nodes == |old(lists[k].nodes)|
                    && (old(lists[k].Sound()) ==> reports[k].inUse == |old(Outstanding(lists[k].pool))|)
      {
        assert old(ListOk(i));
        forall k | 0 <= k < LISTS && k != i
          ensures lists[k] != lists[i]
        {
          assert old(Apart(k, i));
        }
        if lists[i].valid {
          var r := lists[i].Clean();
          reports := reports[i := r];
        }
        i := i + 1;
      }
      forall k | 0 <= k < LISTS
        ensures ListOk(k)
      {
      }
      forall k, j | 0 <= k < LISTS && 0 <= j < LISTS && k != j
        ensures Apart(k, j)
      {
        assert old(Apart(k, j));
      }
    }
  }
}
