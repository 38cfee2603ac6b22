/** The typed buffer pool as values: a stack of buffers at hand, the bottom one
    never handed out, and the buffers that exist.  A buffer may come back to a
    different node than it left, so the stack is any arrangement of buffers. */
module BufferStack {
  datatype Pool<T> = Pool(stack: seq<T>, all: seq<T>)

  datatype Option<T> = None | Some(value: T)

  predicate Distinct<T(==)>(s: seq<T>) {
    forall i, j | 0 <= i < j < |s| :: s[i] != s[j]
  }

  /** x put after the first element. */
  function Second<T>(l: seq<T>, x: T): (r: seq<T>)
    ensures |r| == |l| + 1
    ensures forall i {:trigger r[i]} | 0 <= i < |r| :: r[i] == if l == [] then x else if i == 0 then l[0] else if i == 1 then x else l[i - 1]
  {
    if l == [] then [x] else [l[0], x] + l[1..]
  }

  lemma SecondDistinct<T>(l: seq<T>, x: T)
    requires Distinct(l) && x !in l
    ensures Distinct(Second(l, x))
    ensures forall y :: y in Second(l, x) <==> y == x || y in l
  {
    var r := Second(l, x);
    forall y
      ensures y in r <==> y == x || y in l
    {
      if y in l {
        var i :| 0 <= i < |l| && l[i] == y;
        assert r[if i == 0 then 0 else i + 1] == y;
      }
      assert r[if l == [] then 0 else 1] == x;
    }
  }

  /** Buffers in the hands of callers. */
  function Outstanding<T>(p: Pool<T>): set<T> {
    set b | b in p.all && b !in p.stack
  }

  /** Buffers that can still be handed out: the bottom of the stack is a
      sentinel. */
  function Available<T>(p: Pool<T>): int {
    |p.stack| - 1
  }

  predicate Inv<T(==)>(p: Pool<T>) {
    && 1 <= |p.stack| <= |p.all|
    && Distinct(p.all) && Distinct(p.stack)
    && forall b | b in p.stack :: b in p.all
  }

  function Fresh<T>(all: seq<T>): Pool<T> {
    Pool(all, all)
  }

  function Take<T>(p: Pool<T>): (Pool<T>, Option<T>) {
    if |p.stack| > 1 then (p.(stack := p.stack[..|p.stack| - 1]), Some(p.stack[|p.stack| - 1])) else (p, None)
  }

  /** A pool with every node filled ignores the buffer. */
  function Give<T>(p: Pool<T>, b: T): Pool<T> {
    if |p.stack| < |p.all| then p.(stack := p.stack + [b]) else p
  }

  // ------------------------------------------------------------- one step

  lemma TakeKeeps<T>(p: Pool<T>)
    requires Inv(p)
    ensures var (q, o) := Take(p);
            && Inv(q) && q.all == p.all
            && (o.None? ==> q == p && Available(p) == 0)
            && (o.Some? ==> o.value !in Outstanding(p) && o.value in p.all
                            && Outstanding(q) == Outstanding(p) + {o.value})
  {
    var (q, o) := Take(p);
    if o.Some? {
      forall b
        ensures b in q.stack <==> b in p.stack && b != o.value
      {
        if b in p.stack && b != o.value {
          var i :| 0 <= i < |p.stack| && p.stack[i] == b;
          assert q.stack[i] == b;
        }
      }
    }
  }

  lemma {:induction false} SetOfDistinct<T>(s: seq<T>)
    requires Distinct(s)
    ensures |set b | b in s| == |s|
  {
    if s != [] {
      var t := s[..|s| - 1];
      SetOfDistinct(t);
      assert (set b | b in s) == (set b | b in t) + {s[|s| - 1]};
    }
  }

  /** Conservation: available + outstanding = number of buffers less the
      sentinel. */
  lemma Conservation<T>(p: Pool<T>)
    requires Inv(p)
    ensures Available(p) + |Outstanding(p)| == |p.all| - 1
  {
    var all, stack := set b | b in p.all, set b | b in p.stack;
    SetOfDistinct(p.all);
    SetOfDistinct(p.stack);
    assert stack <= all;
    assert Outstanding(p) == all - stack;
  }

  /** A stack as long as the list of all buffers holds every one of them. */
  lemma FullStackHasAll<T>(p: Pool<T>)
    requires Inv(p) && |p.stack| == |p.all|
    ensures Outstanding(p) == {}
  {
    Conservation(p);
  }

  /** Giving a buffer back keeps the pool sound exactly when the buffer is
      outstanding, or when there is no empty node and it is ignored.  Giving
      back a buffer that is at hand, or a foreign one, while a node is empty
      corrupts the pool. */
  lemma GiveKeepsIff<T>(p: Pool<T>, b: T)
    requires Inv(p)
    ensures Inv(Give(p, b)) <==> b in Outstanding(p) || |p.stack| == |p.all|
    ensures b in Outstanding(p) ==> |p.stack| < |p.all| && Outstanding(Give(p, b)) == Outstanding(p) - {b}
  {
    var q := Give(p, b);
    if |p.stack| < |p.all| {
      assert q.stack[|p.stack|] == b;
      assert b in q.stack;
      if b in p.stack {
        var i :| 0 <= i < |p.stack| && p.stack[i] == b;
        assert q.stack[i] == q.stack[|p.stack|];
        assert !Distinct(q.stack);
      } else if b in p.all {
        forall c | c in q.stack
          ensures c in p.all
        {
          if c != b { assert c in p.stack; }
        }
      }
      assert forall c :: c in q.stack <==> c in p.stack || c == b;
    } else {
      FullStackHasAll(p);
    }
  }

  /** The same two facts, as steps on a pool that may already be unsound. */
  lemma TakeSound<T>(p: Pool<T>)
    ensures Inv(p) ==> Inv(Take(p).0)
  {
    if Inv(p) { TakeKeeps(p); }
  }

  lemma GiveSound<T>(p: Pool<T>, b: T)
    ensures Inv(p) ==> (Inv(Give(p, b)) <==> b in Outstanding(p) || |p.stack| == |p.all|)
  {
    if Inv(p) { GiveKeepsIff(p, b); }
  }

  /** The buffer given back last is handed out next. */
  lemma LastInFirstOut<T>(p: Pool<T>, b: T)
    requires Inv(p) && b in Outstanding(p)
    ensures Take(Give(p, b)) == (p, Some(b))
  {
    GiveKeepsIff(p, b);
    assert (p.stack + [b])[..|p.stack|] == p.stack;
  }

  // ------------------------------------------------------------------ runs

  datatype Op<T> = TakeOp | GiveOp(b: T)

  function Step<T>(p: Pool<T>, op: Op<T>): (Pool<T>, Option<T>) {
    match op
    case TakeOp => Take(p)
    case GiveOp(b) => (Give(p, b), None)
  }

  /** Every buffer given back in the run is outstanding at that moment. */
  predicate RunOk<T(==)>(p: Pool<T>, ops: seq<Op<T>>)
    decreases |ops|
  {
    ops == [] || ((ops[0].GiveOp? ==> ops[0].b in Outstanding(p)) && RunOk(Step(p, ops[0]).0, ops[1..]))
  }

  function Run<T>(p: Pool<T>, ops: seq<Op<T>>): Pool<T>
    decreases |ops|
  {
    if ops == [] then p else Run(Step(p, ops[0]).0, ops[1..])
  }

  lemma {:induction false} RunKeeps<T>(p: Pool<T>, ops: seq<Op<T>>)
    requires Inv(p) && RunOk(p, ops)
    ensures var q := Run(p, ops);
            Inv(q) && q.all == p.all && Available(q) + |Outstanding(q)| == |p.all| - 1
    decreases |ops|
  {
    if ops == [] {
      Conservation(p);
    } else {
      TakeKeeps(p);
      if ops[0].GiveOp? { GiveKeepsIff(p, ops[0].b); }
      RunKeeps(Step(p, ops[0]).0, ops[1..]);
    }
  }

  /** k consecutive requests. */
  function TakeMany<T>(p: Pool<T>, k: nat): (Pool<T>, seq<Option<T>>)
    decreases k
  {
    if k == 0 then (p, [])
    else
      var (q, o) := Take(p);
      var (r, os) := TakeMany(q, k - 1);
      (r, [o] + os)
  }

  /** From any sound pool exactly the first `Available` requests succeed; the
      buffers they return are all different and none was outstanding. */
  lemma {:induction false} TakesUntilEmpty<T>(p: Pool<T>, k: nat)
    requires Inv(p)
    ensures var (q, os) := TakeMany(p, k);
            && |os| == k
            && (forall i | 0 <= i < k :: os[i].Some? <==> i < Available(p))
            && (forall i | 0 <= i < k && i < Available(p) ::
                  os[i].value == p.stack[|p.stack| - 1 - i] && os[i].value !in Outstanding(p))
            && (forall i, j | 0 <= i < j < k && j < Available(p) :: os[i].value != os[j].value)
    decreases k
  {
    if k > 0 {
      TakeKeeps(p);
      var (q, o) := Take(p);
      TakesUntilEmpty(q, k - 1);
      var (r, os) := TakeMany(q, k - 1);
      assert forall i | 0 < i < k :: ([o] + os)[i] == os[i - 1];
    }
  }

  /** A buffer given back twice in a row is handed out again at once, and a
      second time exactly when another buffer was out as well. */
  lemma DoubleReturnIff<T>(p: Pool<T>, b: T)
    requires Inv(p) && b in Outstanding(p)
    ensures var (q, x) := Take(Give(Give(p, b), b));
            x == Some(b) && (Take(q).1 == Some(b) <==> |Outstanding(p)| >= 2)
  {
    Conservation(p);
    GiveKeepsIff(p, b);
    var once := p.stack + [b];
    if |p.stack| + 1 < |p.all| {
      var twice := once + [b];
      assert Give(Give(p, b), b) == p.(stack := twice);
      assert twice[..|p.stack| + 1] == once;
    } else {
      assert Give(Give(p, b), b) == p.(stack := once);
      assert once[..|p.stack|] == p.stack;
      assert b !in p.stack;
    }
  }

  /** Such pools exist: two buffers out, one of them given back twice. */
  lemma DoubleFreeHandsOutTwice()
    ensures var p := Pool([0], [0, 1, 2]);
            && Inv(p) && Outstanding(p) == {1, 2}
            && var (q, a) := Take(Give(Give(p, 1), 1));
               a == Some(1) && Take(q).1 == Some(1)
  {
    var p := Pool([0], [0, 1, 2]);
    assert 1 in p.all && 2 in p.all;
    assert Outstanding(p) == {1, 2};
    DoubleReturnIff(p, 1);
  }
}
