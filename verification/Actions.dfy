/** src/cc_action.c: OpenFlow 1.3 actions (section
    A.2.5 of the switch specification), their length and their wire form. */
module Actions {
  import opened Wire

  datatype Action =
    | Output(port: U32, maxLen: U16)
    | CopyTtlOut | CopyTtlIn
    | SetMplsTtl(mplsTtl: Byte) | DecMplsTtl
    | PushVlan(vlanType: U16) | PushMpls(mplsType: U16) | PushPbb(pbbType: U16)
    | PopVlan | PopPbb | PopMpls(ethertype: U16)
    | SetQueue(queueId: U32)
    | Group(groupId: U32)
    | SetNwTtl(nwTtl: Byte) | DecNwTtl
    | SetField(header: U32, value: seq<Byte>)

  /** enum ofp_action_type */
  function TypeOf(a: Action): U16 {
    match a
    case Output(_, _) => 0
    case CopyTtlOut => 11
    case CopyTtlIn => 12
    case SetMplsTtl(_) => 15
    case DecMplsTtl => 16
    case PushVlan(_) => 17
    case PopVlan => 18
    case PushMpls(_) => 19
    case PopMpls(_) => 20
    case SetQueue(_) => 21
    case Group(_) => 22
    case SetNwTtl(_) => 23
    case DecNwTtl => 24
    case SetField(_, _) => 25
    case PushPbb(_) => 26
    case PopPbb => 27
  }

  /** Length byte and 7-bit field number of an OXM header (section A.2.3.2). */
  function OxmLength(header: U32): nat { header % 0x100 }

  function OxmField(header: U32): nat { header / 0x200 % 0x80 }

  function RoundUp8(n: nat): nat { (n + 7) / 8 * 8 }

  /** The value of a SET_FIELD is an object of the length its header says; no
      field of section A.2.3.7 is longer than 16 bytes. */
  predicate Known(a: Action) {
    a.SetField? ==> OxmLength(a.header) <= 16 && |a.value| >= OxmLength(a.header)
  }

  /** `ofl_actions_ofp_len` */
  function LenOf(a: Action): nat {
    match a
    case Output(_, _) => 16
    case SetField(header, _) => 8 + RoundUp8(OxmLength(header))
    case _ => 8
  }

  /** `ofl_actions_ofp_total_len` */
  function TotalLen(actions: seq<Action>): nat {
    if actions == [] then 0 else TotalLen(actions[..|actions| - 1]) + LenOf(actions[|actions| - 1])
  }

  method ActionsTotalLen(actions: seq<Action>) returns (sum: nat)
    ensures sum == TotalLen(actions)
  {
    sum := 0;
    var i := 0;
    while i < |actions|
      invariant 0 <= i <= |actions| && sum == TotalLen(actions[..i])
    {
      sum := sum + LenOf(actions[i]);
      i := i + 1;
      assert actions[..i][..i - 1] == actions[..i - 1];
    }
    assert actions[..|actions|] == actions;
  }

  predicate Copied(len: nat) {
    len == 1 || len == 2 || len == 4 || len == 6 || len == 8 || len == 16
  }

  /** The bytes the packer copies for a SET_FIELD value on a little-endian host:
      as given for MAC-, IPv6- and byte-sized values, byte-swapped for 2 and 4
      (unless the value is an IPv4 or ARP address, kept in network order), and
      for 8 only the two low bytes swapped, because 16-bit conversion is
      applied to a 64-bit value.  Other lengths are not copied. */
  function FieldBytes(header: U32, v: seq<Byte>): (r: seq<Byte>)
    requires |v| >= OxmLength(header)
    ensures |r| == if Copied(OxmLength(header)) then OxmLength(header) else 0
  {
    match OxmLength(header)
    case 1 => v[..1]
    case 6 => v[..6]
    case 16 => v[..16]
    case 2 => [v[1], v[0]]
    case 4 => if OxmField(header) in {11, 12, 22, 23} then v[..4] else [v[3], v[2], v[1], v[0]]
    case 8 => [v[1], v[0], 0, 0, 0, 0, 0, 0]
    case _ => []
  }

  /** The bytes in network order are those of the host value reversed.  For the
      8-byte fields (metadata and tunnel id) the packer produces them exactly
      when the value is zero. */
  lemma EightByteFieldsOnlyZero(header: U32, v: seq<Byte>)
    requires OxmLength(header) == 8 && |v| == 8
    ensures FieldBytes(header, v) == [v[7], v[6], v[5], v[4], v[3], v[2], v[1], v[0]]
            <==> v == [0, 0, 0, 0, 0, 0, 0, 0]
  {
    if FieldBytes(header, v) == [v[7], v[6], v[5], v[4], v[3], v[2], v[1], v[0]] {
      var a, b := FieldBytes(header, v), [v[7], v[6], v[5], v[4], v[3], v[2], v[1], v[0]];
      assert a[2] == b[2] && a[3] == b[3] && a[4] == b[4] && a[5] == b[5] && a[6] == b[6] && a[7] == b[7];
      assert a[0] == b[0] && a[1] == b[1];
      assert v == [v[0], v[1], v[2], v[3], v[4], v[5], v[6], v[7]];
    }
  }

  /** An OXM header is a class, a field number, a mask bit and a length. */
  lemma OxmParts(cls: U16, field: nat, mask: nat, len: Byte)
    requires field < 0x80 && mask < 2
    ensures var h := 0x1_0000 * cls + 0x200 * field + 0x100 * mask + len;
            h < 0x1_0000_0000 && OxmLength(h) == len && OxmField(h) == field
  {
    var low: nat, top: nat := 0x100 * mask + len, 0x80 * cls + field;
    var h := 0x200 * top + low;
    assert h / 0x200 == top && low < 0x200;
  }

  /** What a receiver reads in network order.  A 16-bit value is the host's
      value.  A 32-bit value is, unless the field is an address (IPv4 source and
      destination, ARP source and target) whose bytes go out as given, and is
      then only the host's if it is symmetric.  Bytes, MAC and IPv6 addresses go
      out as given. */
  lemma FieldBytesRead(header: U32, v: seq<Byte>)
    requires |v| == OxmLength(header)
    ensures |v| == 2 ==> var low: nat, high: nat := v[0], v[1]; Get16(FieldBytes(header, v), 0) == low + 0x100 * high
    ensures |v| == 4 ==>
              && (Get32(FieldBytes(header, v), 0) == GetHost32(v, 0) <==>
                    (OxmField(header) != 11 && OxmField(header) != 12 && OxmField(header) != 22 && OxmField(header) != 23)
                    || Symmetric(GetHost32(v, 0)))
              && (OxmField(header) == 11 || OxmField(header) == 12 || OxmField(header) == 22 || OxmField(header) == 23 ==>
                    FieldBytes(header, v) == v)
    ensures |v| == 1 || |v| == 6 || |v| == 16 ==> FieldBytes(header, v) == v
    ensures |v| == 8 ==> FieldBytes(header, v) == [v[1], v[0], 0, 0, 0, 0, 0, 0]
  {
    if |v| == 4 { HostOrderOnWire(v, 0); }
  }

  predicate FieldsAt(s: seq<Byte>, o: nat, a: Action)
    requires o + LenOf(a) <= |s|
  {
    && Get16(s, o + 2) == LenOf(a)
    && match a
       case Output(port, maxLen) => Get32(s, o + 4) == port && Get16(s, o + 8) == maxLen && Zeros(s, o + 10, o + 16)
       case SetMplsTtl(ttl) => s[o + 4] == ttl && Zeros(s, o + 5, o + 8)
       case SetNwTtl(ttl) => s[o + 4] == ttl && Zeros(s, o + 5, o + 8)
       case PushVlan(e) => Get16(s, o + 4) == e && Zeros(s, o + 6, o + 8)
       case PushMpls(e) => Get16(s, o + 4) == e && Zeros(s, o + 6, o + 8)
       case PushPbb(e) => Get16(s, o + 4) == e && Zeros(s, o + 6, o + 8)
       case PopMpls(e) => Get16(s, o + 4) == e && Zeros(s, o + 6, o + 8)
       case SetQueue(q) => Get32(s, o + 4) == q
       case Group(g) => Get32(s, o + 4) == g
       case SetField(header, _) => Get32(s, o + 4) == header
       case _ => Zeros(s, o + 4, o + 8)
  }

  /** One action at offset o of a message: its struct of section A.2.5, the
      OXM value of a SET_FIELD apart. */
  predicate ActionAt(s: seq<Byte>, o: nat, a: Action)
    requires o + LenOf(a) <= |s|
  {
    Get16(s, o) == TypeOf(a) && FieldsAt(s, o, a)
  }

  /** The value of a SET_FIELD, padded with zeros, eight bytes into `data`. */
  predicate ValueAt(s: seq<Byte>, data: nat, a: Action)
    requires a.SetField? && Known(a) && data + LenOf(a) <= |s|
  {
    var n := OxmLength(a.header);
    && (Copied(n) ==> s[data + 8..data + 8 + n] == FieldBytes(a.header, a.value))
    && Zeros(s, data + 8 + n, data + LenOf(a))
  }

  /** Bytes of the struct itself: a SET_FIELD is longer by its value. */
  function StructLen(a: Action): nat {
    if a.SetField? then 8 else LenOf(a)
  }

  /** First byte that packing the value touches: values of a length without a
      case are left as they were, only their padding is written. */
  function ValueStart(data: nat, a: Action): nat
    requires a.SetField?
  {
    data + 8 + if Copied(OxmLength(a.header)) then 0 else OxmLength(a.header)
  }

  method PackOutput(buf: array<Byte>, o: nat, port: U32, maxLen: U16) returns (len: nat)
    requires o + 16 <= buf.Length
    modifies buf
    ensures len == 16 && Get16(buf[..], o + 2) == 16
    ensures Get32(buf[..], o + 4) == port && Get16(buf[..], o + 8) == maxLen && Zeros(buf[..], o + 10, o + 16)
    ensures SameOutside(old(buf[..]), buf[..], o + 2, o + 16)
  {
    Put16(buf, o + 2, 16);
    Put32(buf, o + 4, port);
    Put16(buf, o + 8, maxLen);
    Clear(buf, o + 10, 6);
    len := 16;
  }

  method PackTtl(buf: array<Byte>, o: nat, ttl: Byte) returns (len: nat)
    requires o + 8 <= buf.Length
    modifies buf
    ensures len == 8 && Get16(buf[..], o + 2) == 8 && buf[o + 4] == ttl && Zeros(buf[..], o + 5, o + 8)
    ensures SameOutside(old(buf[..]), buf[..], o + 2, o + 8)
  {
    Put16(buf, o + 2, 8);
    Put8(buf, o + 4, ttl);
    Clear(buf, o + 5, 3);
    len := 8;
  }

  method PackEthertype(buf: array<Byte>, o: nat, e: U16) returns (len: nat)
    requires o + 8 <= buf.Length
    modifies buf
    ensures len == 8 && Get16(buf[..], o + 2) == 8 && Get16(buf[..], o + 4) == e && Zeros(buf[..], o + 6, o + 8)
    ensures SameOutside(old(buf[..]), buf[..], o + 2, o + 8)
  {
    Put16(buf, o + 2, 8);
    Put16(buf, o + 4, e);
    Clear(buf, o + 6, 2);
    len := 8;
  }

  method PackId(buf: array<Byte>, o: nat, id: U32) returns (len: nat)
    requires o + 8 <= buf.Length
    modifies buf
    ensures len == 8 && Get16(buf[..], o + 2) == 8 && Get32(buf[..], o + 4) == id
    ensures SameOutside(old(buf[..]), buf[..], o + 2, o + 8)
  {
    Put16(buf, o + 2, 8);
    Put32(buf, o + 4, id);
    len := 8;
  }

  method PackValue(buf: array<Byte>, data: nat, a: Action)
    requires a.SetField? && Known(a) && data + LenOf(a) <= buf.Length
    modifies buf
    ensures ValueAt(buf[..], data, a)
    ensures SameOutside(old(buf[..]), buf[..], ValueStart(data, a), data + LenOf(a))
  {
    var n := OxmLength(a.header);
    if Copied(n) {
      Copy(buf, data + 8, FieldBytes(a.header, a.value));
    }
    Clear(buf, data + 8 + n, RoundUp8(n) - n);
  }

  method PackField(buf: array<Byte>, o: nat, data: nat, a: Action) returns (len: nat)
    requires a.SetField? && Known(a) && o + LenOf(a) <= buf.Length && data + LenOf(a) <= buf.Length
    requires data + LenOf(a) <= o || data == o
    modifies buf
    ensures len == LenOf(a) && Get16(buf[..], o + 2) == len && Get32(buf[..], o + 4) == a.header
    ensures ValueAt(buf[..], data, a)
    ensures forall i | 0 <= i < buf.Length && !(o + 2 <= i < o + 8) && !(ValueStart(data, a) <= i < data + len) :: buf[i] == old(buf[i])
  {
    var total := 8 + RoundUp8(OxmLength(a.header));
    Put16(buf, o + 2, total);
    Put32(buf, o + 4, a.header);
    PackValue(buf, data, a);
    len := Get16(buf[..], o + 2);
  }

  /** The switch over action types. */
  method PackFields(buf: array<Byte>, o: nat, data: nat, a: Action) returns (len: nat)
    requires Known(a) && o + LenOf(a) <= buf.Length && data + LenOf(a) <= buf.Length
    requires data + LenOf(a) <= o || data == o
    requires Zeros(buf[..], o + 4, o + 8)
    modifies buf
    ensures len == LenOf(a) && FieldsAt(buf[..], o, a)
    ensures a.SetField? ==> ValueAt(buf[..], data, a)
    ensures forall i | 0 <= i < buf.Length && !(o + 2 <= i < o + StructLen(a)) && (a.SetField? ==> !(ValueStart(data, a) <= i < data + len)) ::
              buf[i] == old(buf[i])
  {
    match a {
      case Output(port, maxLen) => len := PackOutput(buf, o, port, maxLen);
      case SetMplsTtl(ttl) => len := PackTtl(buf, o, ttl);
      case SetNwTtl(ttl) => len := PackTtl(buf, o, ttl);
      case PushVlan(e) => len := PackEthertype(buf, o, e);
      case PushMpls(e) => len := PackEthertype(buf, o, e);
      case PushPbb(e) => len := PackEthertype(buf, o, e);
      case PopMpls(e) => len := PackEthertype(buf, o, e);
      case SetQueue(q) => len := PackId(buf, o, q);
      case Group(g) => len := PackId(buf, o, g);
      case SetField(header, value) => len := PackField(buf, o, data, a);
      case _ =>
        Put16(buf, o + 2, 8);
        len := 8;
    }
  }

  /** `ofl_actions_pack` into buf at `o`, with `data` the buffer position given
      for SET_FIELD values.  Returns the number of bytes it accounts for. */
  method PackAction(buf: array<Byte>, o: nat, data: nat, a: Action) returns (len: nat)
    requires Known(a) && o + LenOf(a) <= buf.Length && data + LenOf(a) <= buf.Length
    requires data + LenOf(a) <= o || data == o
    modifies buf
    ensures len == LenOf(a) && ActionAt(buf[..], o, a)
    ensures a.SetField? ==> ValueAt(buf[..], data, a)
    ensures forall i | 0 <= i < buf.Length && !(o <= i < o + StructLen(a)) && (a.SetField? ==> !(ValueStart(data, a) <= i < data + len)) ::
              buf[i] == old(buf[i])
  {
    Put16(buf, o, TypeOf(a));
    Clear(buf, o + 4, 4);
    len := PackFields(buf, o, data, a);
  }

  /** Every action is a whole number of 64-bit words long. */
  lemma LenMultipleOf8(a: Action)
    ensures LenOf(a) % 8 == 0 && 8 <= LenOf(a) && (Known(a) ==> LenOf(a) <= 24)
  {
  }

  lemma {:induction false} TotalLenMultipleOf8(actions: seq<Action>)
    ensures TotalLen(actions) % 8 == 0
  {
    if actions != [] {
      TotalLenMultipleOf8(actions[..|actions| - 1]);
      LenMultipleOf8(actions[|actions| - 1]);
    }
  }
}
