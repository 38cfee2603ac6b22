/** Bytes on the wire: fields in network order at fixed offsets. */
module Wire {

  type Byte = b: nat | b < 0x100
  type U16 = v: nat | v < 0x1_0000
  type U32 = v: nat | v < 0x1_0000_0000
  type U64 = v: nat | v < 0x1_0000_0000_0000_0000

  const OFP_VERSION: Byte := 4

  /** Reading a field in network order, as ntohs, ntohl and ntoh64 do. */
  function Get16(s: seq<Byte>, o: nat): U16
    requires o + 2 <= |s|
  {
    var hi: nat, lo: nat := s[o], s[o + 1];
    hi * 0x100 + lo
  }

  function Get32(s: seq<Byte>, o: nat): U32
    requires o + 4 <= |s|
  {
    var hi: nat, lo: nat := Get16(s, o), Get16(s, o + 2);
    hi * 0x1_0000 + lo
  }

  function Get64(s: seq<Byte>, o: nat): U64
    requires o + 8 <= |s|
  {
    var hi: nat, lo: nat := Get32(s, o), Get32(s, o + 4);
    hi * 0x1_0000_0000 + lo
  }

  /** The bytes of a field in network order. */
  function Bytes16(v: U16): (b: seq<Byte>)
    ensures |b| == 2 && Get16(b, 0) == v
  {
    [v / 0x100, v % 0x100]
  }

  function Bytes32(v: U32): (b: seq<Byte>)
    ensures |b| == 4 && Get32(b, 0) == v
  {
    Bytes16(v / 0x1_0000) + Bytes16(v % 0x1_0000)
  }

  /** Reading four bytes as a little-endian host does, without conversion. */
  function GetHost32(s: seq<Byte>, o: nat): U32
    requires o + 4 <= |s|
  {
    var a: nat, b: nat, c: nat, d: nat := s[o], s[o + 1], s[o + 2], s[o + 3];
    (a + 0x100 * b) + 0x1_0000 * (c + 0x100 * d)
  }

  predicate Zeros(s: seq<Byte>, lo: nat, hi: nat)
    requires lo <= hi <= |s|
  {
    forall i | lo <= i < hi :: s[i] == 0
  }

  /** The bytes outside [lo, hi) are the same in both. */
  predicate SameOutside(a: seq<Byte>, b: seq<Byte>, lo: nat, hi: nat) {
    |a| == |b| && forall i | 0 <= i < |a| && !(lo <= i < hi) :: a[i] == b[i]
  }

  /** The bytes of [lo, hi) are the same in both. */
  predicate SameInside(a: seq<Byte>, b: seq<Byte>, lo: nat, hi: nat)
    requires hi <= |a| == |b|
  {
    forall i | lo <= i < hi :: a[i] == b[i]
  }

  method Put8(buf: array<Byte>, o: nat, v: Byte)
    requires o + 1 <= buf.Length
    modifies buf
    ensures buf[o] == v && SameOutside(old(buf[..]), buf[..], o, o + 1)
  {
    buf[o] := v;
  }

  method Put16(buf: array<Byte>, o: nat, v: U16)
    requires o + 2 <= buf.Length
    modifies buf
    ensures Get16(buf[..], o) == v && SameOutside(old(buf[..]), buf[..], o, o + 2)
  {
    buf[o] := v / 0x100;
    buf[o + 1] := v % 0x100;
  }

  method Put32(buf: array<Byte>, o: nat, v: U32)
    requires o + 4 <= buf.Length
    modifies buf
    ensures Get32(buf[..], o) == v && SameOutside(old(buf[..]), buf[..], o, o + 4)
  {
    Put16(buf, o, v / 0x1_0000);
    Put16(buf, o + 2, v % 0x1_0000);
  }

  method Put64(buf: array<Byte>, o: nat, v: U64)
    requires o + 8 <= buf.Length
    modifies buf
    ensures Get64(buf[..], o) == v && SameOutside(old(buf[..]), buf[..], o, o + 8)
  {
    Put32(buf, o, v / 0x1_0000_0000);
    Put32(buf, o + 4, v % 0x1_0000_0000);
  }

  /** A store on a little-endian host without conversion. */
  method PutHost32(buf: array<Byte>, o: nat, v: U32)
    requires o + 4 <= buf.Length
    modifies buf
    ensures GetHost32(buf[..], o) == v && SameOutside(old(buf[..]), buf[..], o, o + 4)
  {
    var low, high := v % 0x1_0000, v / 0x1_0000;
    buf[o] := low % 0x100;
    buf[o + 1] := low / 0x100;
    buf[o + 2] := high % 0x100;
    buf[o + 3] := high / 0x100;
  }

  /** memset(buf + lo, 0, n) */
  method Clear(buf: array<Byte>, lo: nat, n: nat)
    requires lo + n <= buf.Length
    modifies buf
    ensures Zeros(buf[..], lo, lo + n) && SameOutside(old(buf[..]), buf[..], lo, lo + n)
  {
    forall i | lo <= i < lo + n {
      buf[i] := 0;
    }
  }

  /** memcpy(buf + lo, data, |data|) */
  method Copy(buf: array<Byte>, lo: nat, data: seq<Byte>)
    requires lo + |data| <= buf.Length
    modifies buf
    ensures buf[lo..lo + |data|] == data && SameOutside(old(buf[..]), buf[..], lo, lo + |data|)
  {
    forall i | lo <= i < lo + |data| {
      buf[i] := data[i - lo];
    }
  }

  /** The common header, as `ofl_msg_pack` stores it (section A.1). */
  method PackHeader(buf: array<Byte>, type_: Byte, xid: U32)
    requires buf.Length >= 8
    modifies buf
    ensures buf[0] == OFP_VERSION && buf[1] == type_ && Get16(buf[..], 2) == buf.Length % 0x1_0000 && Get32(buf[..], 4) == xid
    ensures SameOutside(old(buf[..]), buf[..], 0, 8)
  {
    buf[0] := OFP_VERSION;
    buf[1] := type_;
    Put16(buf, 2, buf.Length % 0x1_0000);
    Put32(buf, 4, xid);
  }

  /** The bytes of a host-order store, least significant first. */
  lemma HostBytes(s: seq<Byte>, o: nat)
    requires o + 4 <= |s|
    ensures var v := GetHost32(s, o);
            && s[o] == v % 0x100 && s[o + 1] == v / 0x100 % 0x100
            && s[o + 2] == v / 0x1_0000 % 0x100 && s[o + 3] == v / 0x100_0000
  {
    var a: nat, b: nat, c: nat, d: nat := s[o], s[o + 1], s[o + 2], s[o + 3];
    var low, high := a + 0x100 * b, c + 0x100 * d;
    assert GetHost32(s, o) == low + 0x1_0000 * high;
    assert GetHost32(s, o) / 0x1_0000 == high;
  }

  /** A value whose four bytes read the same from either end. */
  predicate Symmetric(v: U32) {
    v % 0x100 == v / 0x100_0000 && v / 0x100 % 0x100 == v / 0x1_0000 % 0x100
  }

  /** A host-order store reads back in network order as the value stored exactly
      when the value is symmetric. */
  lemma HostOrderOnWire(s: seq<Byte>, o: nat)
    requires o + 4 <= |s|
    ensures var v := GetHost32(s, o);
            Get32(s, o) == v <==> Symmetric(v)
  {
    HostBytes(s, o);
  }
}
