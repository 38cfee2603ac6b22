/** Duplicate-free sequences: what a circular list of page descriptors denotes. */
module Lists {

  predicate NoDup(l: seq<int>) {
    forall i, j | 0 <= i < j < |l| :: l[i] != l[j]
  }

  /** Position of `x` in `l`. */
  function IndexOf(l: seq<int>, x: int): (i: nat)
    requires x in l
    ensures i < |l| && l[i] == x && x !in l[..i]
  {
    if l[0] == x then 0 else IndexOf(l[1..], x) + 1
  }

  function RemoveAt(l: seq<int>, i: nat): (r: seq<int>)
    requires i < |l|
    ensures |r| == |l| - 1
    ensures forall k | 0 <= k < i :: r[k] == l[k]
    ensures forall k | i <= k < |r| :: r[k] == l[k + 1]
  {
    l[..i] + l[i + 1..]
  }

  function Without(l: seq<int>, x: int): seq<int>
    requires x in l
  {
    RemoveAt(l, IndexOf(l, x))
  }

  lemma RemoveAtMembers(l: seq<int>, i: nat)
    requires NoDup(l) && i < |l|
    ensures NoDup(RemoveAt(l, i))
    ensures forall x :: x in RemoveAt(l, i) <==> x in l && x != l[i]
  {
    var r := RemoveAt(l, i);
    forall x
      ensures x in r <==> x in l && x != l[i]
    {
      if x in r {
        var k :| 0 <= k < |r| && r[k] == x;
        assert x == l[if k < i then k else k + 1];
      }
      if x in l && x != l[i] {
        var k :| 0 <= k < |l| && l[k] == x;
        assert x == r[if k < i then k else k - 1];
      }
    }
  }

  lemma ReplaceMembers(l: seq<int>, i: nat, y: int)
    requires NoDup(l) && i < |l| && y !in l
    ensures NoDup(l[i := y])
    ensures forall x :: x in l[i := y] <==> x == y || (x in l && x != l[i])
  {
    var r := l[i := y];
    forall x
      ensures x in r <==> x == y || (x in l && x != l[i])
    {
      if x in l && x != l[i] {
        var k :| 0 <= k < |l| && l[k] == x;
        assert r[k] == x;
      }
      assert r[i] == y;
    }
  }
}
