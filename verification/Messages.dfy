/** OpenFlow 1.3 messages whose whole layout is fixed, or a fixed part followed
    by raw bytes: their wire form (section A.1, A.3 and A.4 of the switch
    specification) and how `ofl_msg_unpack` reads them. */
module Messages {
  import opened Wire

  datatype Body =
    | NoBody
    | PortBody(port: U32)
    | QueueBody(port: U32, queueId: U32)
    | GroupBody(groupId: U32)
    | MeterBody(meterId: U32)

  datatype Reply =
    | Aggregate(packets: U64, bytes: U64, flows: U32)
    | GroupFeatures(types: U32, capabilities: U32, maxGroups: seq<U32>, actions: seq<U32>)

  datatype Msg =
    | Empty(type_: Byte)
    | Error(etype: U16, code: U16, data: seq<Byte>)
    | Echo(type_: Byte, data: seq<Byte>)
    | Role(type_: Byte, role: U32, generationId: U64)
    | Features(datapathId: U64, nBuffers: U32, nTables: Byte, auxiliaryId: Byte, capabilities: U32)
    | Config(type_: Byte, flags: U16, missSendLen: U16)
    | Async(type_: Byte, packetIn: seq<U32>, portStatus: seq<U32>, flowRemoved: seq<U32>)
    | PortMod(portNo: U32, hwAddr: seq<Byte>, config: U32, mask: U32, advertise: U32)
    | TableMod(tableId: Byte, tableConfig: U32)
    | QueueConfigRequest(port: U32)
    | MultipartRequest(mtype: U16, mflags: U16, body: Body)
    | MultipartReply(rtype: U16, rflags: U16, reply: Reply)

  // enum ofp_type
  const HELLO: Byte := 0
  const ERROR: Byte := 1
  const ECHO_REQUEST: Byte := 2
  const ECHO_REPLY: Byte := 3
  const FEATURES_REQUEST: Byte := 5
  const FEATURES_REPLY: Byte := 6
  const GET_CONFIG_REQUEST: Byte := 7
  const GET_CONFIG_REPLY: Byte := 8
  const SET_CONFIG: Byte := 9
  const PORT_MOD: Byte := 16
  const TABLE_MOD: Byte := 17
  const MULTIPART_REQUEST: Byte := 18
  const MULTIPART_REPLY: Byte := 19
  const BARRIER_REQUEST: Byte := 20
  const BARRIER_REPLY: Byte := 21
  const QUEUE_GET_CONFIG_REQUEST: Byte := 22
  const ROLE_REQUEST: Byte := 24
  const ROLE_REPLY: Byte := 25
  const GET_ASYNC_REQUEST: Byte := 26
  const GET_ASYNC_REPLY: Byte := 27
  const SET_ASYNC: Byte := 28

  // enum ofp_multipart_types
  const MP_DESC: U16 := 0
  const MP_FLOW: U16 := 1
  const MP_AGGREGATE: U16 := 2
  const MP_TABLE: U16 := 3
  const MP_PORT_STATS: U16 := 4
  const MP_QUEUE: U16 := 5
  const MP_GROUP: U16 := 6
  const MP_GROUP_DESC: U16 := 7
  const MP_GROUP_FEATURES: U16 := 8
  const MP_METER: U16 := 9
  const MP_METER_CONFIG: U16 := 10
  const MP_METER_FEATURES: U16 := 11
  const MP_TABLE_FEATURES: U16 := 12
  const MP_PORT_DESC: U16 := 13
  const MP_EXPERIMENTER: U16 := 0xFFFF
  const OFPP_MAX: U32 := 0xFFFF_FF00
  const OFPP_ANY: U32 := 0xFFFF_FFFF

  // -------------------------------------------------------------- messages

  predicate EmptyType(t: Byte) {
    || t == HELLO || t == FEATURES_REQUEST || t == GET_CONFIG_REQUEST || t == GET_ASYNC_REQUEST
    || t == BARRIER_REQUEST || t == BARRIER_REPLY
  }

  /** Multipart requests without a body that the parser knows. */
  predicate EmptyRequest(t: U16) {
    t == MP_DESC || t == MP_TABLE || t == MP_GROUP_DESC || t == MP_GROUP_FEATURES || t == MP_PORT_DESC
  }

  /** Multipart requests that name a port, and those that name one other thing. */
  predicate PortRequest(t: U16) {
    t == MP_PORT_STATS || t == MP_QUEUE
  }

  predicate IdRequest(t: U16) {
    t == MP_GROUP || t == MP_METER || t == MP_METER_CONFIG
  }

  predicate BodyFits(t: U16, b: Body) {
    match b
    case NoBody => EmptyRequest(t) || t == MP_METER_FEATURES
    case PortBody(_) => t == MP_PORT_STATS
    case QueueBody(_, _) => t == MP_QUEUE
    case GroupBody(_) => t == MP_GROUP
    case MeterBody(_) => t == MP_METER || t == MP_METER_CONFIG
  }

  predicate ReplyFits(t: U16, r: Reply) {
    match r
    case Aggregate(_, _, _) => t == MP_AGGREGATE
    case GroupFeatures(_, _, maxGroups, actions) => t == MP_GROUP_FEATURES && |maxGroups| == 4 && |actions| == 4
  }

  /** The values a C structure of that kind can hold. */
  predicate WellFormed(m: Msg) {
    match m
    case Empty(t) => EmptyType(t)
    case Echo(t, _) => t == ECHO_REQUEST || t == ECHO_REPLY
    case Role(t, _, _) => t == ROLE_REQUEST || t == ROLE_REPLY
    case Config(t, _, _) => t == GET_CONFIG_REPLY || t == SET_CONFIG
    case Async(t, a, b, c) => (t == GET_ASYNC_REPLY || t == SET_ASYNC) && |a| == 2 && |b| == 2 && |c| == 2
    case PortMod(_, hw, _, _, _) => |hw| == 6
    case MultipartRequest(t, _, b) => BodyFits(t, b)
    case MultipartReply(t, _, r) => ReplyFits(t, r)
    case _ => true
  }

  function TypeOf(m: Msg): Byte {
    match m
    case Empty(t) => t
    case Error(_, _, _) => ERROR
    case Echo(t, _) => t
    case Role(t, _, _) => t
    case Features(_, _, _, _, _) => FEATURES_REPLY
    case Config(t, _, _) => t
    case Async(t, _, _, _) => t
    case PortMod(_, _, _, _, _) => PORT_MOD
    case TableMod(_, _) => TABLE_MOD
    case QueueConfigRequest(_) => QUEUE_GET_CONFIG_REQUEST
    case MultipartRequest(_, _, _) => MULTIPART_REQUEST
    case MultipartReply(_, _, _) => MULTIPART_REPLY
  }

  /** Size of the whole message, header included. */
  function SizeOf(m: Msg): nat {
    match m
    case Empty(_) => 8
    case Error(_, _, data) => 12 + |data|
    case Echo(_, data) => 8 + |data|
    case Role(_, _, _) => 24
    case Features(_, _, _, _, _) => 32
    case Config(_, _, _) => 12
    case Async(_, _, _, _) => 32
    case PortMod(_, _, _, _, _) => 40
    case TableMod(_, _) => 16
    case QueueConfigRequest(_) => 16
    case MultipartRequest(_, _, b) => if b == NoBody then 16 else 24
    case MultipartReply(_, _, r) => if r.Aggregate? then 40 else 56
  }

  // ------------------------------------------------------------- wire form

  /** The common header (section A.1). */
  predicate HeaderAt(s: seq<Byte>, t: Byte, xid: U32)
    requires |s| >= 8
  {
    s[0] == OFP_VERSION && s[1] == t && Get16(s, 2) == |s| % 0x1_0000 && Get32(s, 4) == xid
  }

  predicate RequestAt(s: seq<Byte>, b: Body)
    requires b != NoBody ==> |s| == 24
  {
    match b
    case NoBody => true
    case PortBody(port) => Get32(s, 16) == port
    case QueueBody(port, q) => Get32(s, 16) == port && Get32(s, 20) == q
    case GroupBody(g) => Get32(s, 16) == g
    case MeterBody(id) => Get32(s, 16) == id
  }

  predicate ReplyAt(s: seq<Byte>, r: Reply)
    requires |s| == if r.Aggregate? then 40 else 56
    requires r.GroupFeatures? ==> |r.maxGroups| == 4 && |r.actions| == 4
  {
    match r
    case Aggregate(p, b, f) => Get64(s, 16) == p && Get64(s, 24) == b && Get32(s, 32) == f
    case GroupFeatures(types, cap, maxGroups, actions) =>
      && Get32(s, 16) == types && Get32(s, 20) == cap
      && (forall i {:trigger maxGroups[i]} | 0 <= i < 4 :: Get32(s, 24 + 4 * i) == maxGroups[i])
      && (forall i {:trigger actions[i]} | 0 <= i < 4 :: Get32(s, 40 + 4 * i) == actions[i])
  }

  /** The fields after the common header, at their offsets. */
  predicate FieldsAt(s: seq<Byte>, m: Msg)
    requires WellFormed(m) && |s| == SizeOf(m)
  {
    match m
    case Empty(_) => true
    case Error(etype, code, data) => Get16(s, 8) == etype && Get16(s, 10) == code && s[12..] == data
    case Echo(_, data) => s[8..] == data
    case Role(_, role, gen) => Get32(s, 8) == role && Get64(s, 16) == gen
    case Features(dpid, nb, nt, aux, cap) =>
      Get64(s, 8) == dpid && Get32(s, 16) == nb && s[20] == nt && s[21] == aux && Get32(s, 24) == cap
    case Config(_, flags, miss) => Get16(s, 8) == flags && Get16(s, 10) == miss
    case Async(_, a, b, c) =>
      && GetHost32(s, 8) == a[0] && GetHost32(s, 12) == a[1]
      && GetHost32(s, 16) == b[0] && GetHost32(s, 20) == b[1]
      && GetHost32(s, 24) == c[0] && GetHost32(s, 28) == c[1]
    case PortMod(port, hw, config, mask, adv) =>
      && Get32(s, 8) == port && s[16..22] == hw
      && Get32(s, 24) == config && Get32(s, 28) == mask && Get32(s, 32) == adv
    case TableMod(id, config) => s[8] == id && Get32(s, 12) == config
    case QueueConfigRequest(port) => Get32(s, 8) == port
    case MultipartRequest(t, flags, b) => Get16(s, 8) == t && Get16(s, 10) == flags && RequestAt(s, b)
    case MultipartReply(t, flags, r) => Get16(s, 8) == t && Get16(s, 10) == flags && ReplyAt(s, r)
  }

  /** The padding of every message is zero, as the packers write it. */
  predicate PadsZero(s: seq<Byte>, m: Msg)
    requires |s| == SizeOf(m)
  {
    match m
    case Role(_, _, _) => Zeros(s, 12, 16)
    case Features(_, _, _, _, _) => Zeros(s, 22, 24) && Zeros(s, 28, 32)
    case PortMod(_, _, _, _, _) => Zeros(s, 12, 16) && Zeros(s, 22, 24) && Zeros(s, 36, 40)
    case TableMod(_, _) => Zeros(s, 9, 12)
    case QueueConfigRequest(_) => Zeros(s, 12, 16)
    case MultipartRequest(_, _, b) => Zeros(s, 12, 16) && (b == NoBody || b.QueueBody? || Zeros(s, 20, 24))
    case MultipartReply(_, _, r) => Zeros(s, 12, 16) && (r.GroupFeatures? || Zeros(s, 36, 40))
    case _ => true
  }

  /** The bytes after the common header. */
  predicate BodyAt(s: seq<Byte>, m: Msg)
    requires WellFormed(m) && |s| == SizeOf(m)
  {
    FieldsAt(s, m) && PadsZero(s, m)
  }

  /** s is the wire form of m with transaction id xid. */
  predicate OnWire(s: seq<Byte>, m: Msg, xid: U32) {
    WellFormed(m) && |s| == SizeOf(m) && HeaderAt(s, TypeOf(m), xid) && BodyAt(s, m)
  }

  // --------------------------------------------------------------- reading

  /** What `ofl_msg_unpack` returns: a message, its xid and the bytes left over,
      or an error code pair.  `ErrPlain` is OFL_ERROR. */
  datatype Parsed =
    | Parsed(msg: Msg, xid: U32, rest: nat)
    | Err(etype: nat, code: nat)
    | ErrPlain

  // ofp_error_type and the codes used
  const HELLO_FAILED: nat := 0
  const BAD_REQUEST: nat := 1
  const QUEUE_OP_FAILED: nat := 9
  const HFC_INCOMPATIBLE: nat := 0
  const BRC_BAD_MULTIPART: nat := 2
  const BRC_BAD_LEN: nat := 6
  const QOFC_BAD_PORT: nat := 0
  const GMFC_BAD_TYPE: nat := 10

  predicate RequestCovered(t: U16) {
    t != MP_FLOW && t != MP_AGGREGATE && t != MP_TABLE_FEATURES && t != MP_EXPERIMENTER
  }

  predicate ReplyCovered(t: U16) {
    t == MP_AGGREGATE || t == MP_GROUP_FEATURES || t == MP_METER_FEATURES || (t > MP_PORT_DESC && t != MP_EXPERIMENTER)
  }

  /** A message is the first n bytes of `mem`; what follows in memory is not
      part of it.  Types this model reads; the others rest on code that is not
      part of it, the experimenter types on callbacks. */
  predicate Covered(mem: seq<Byte>, n: nat)
    requires 8 <= n <= |mem|
  {
    var t := mem[1];
    || EmptyType(t) || t == ERROR || t == ECHO_REQUEST || t == ECHO_REPLY || t == ROLE_REQUEST || t == ROLE_REPLY
    || t == FEATURES_REPLY || t == GET_CONFIG_REPLY || t == SET_CONFIG || t == GET_ASYNC_REPLY || t == SET_ASYNC
    || t == PORT_MOD || t == TABLE_MOD || t == QUEUE_GET_CONFIG_REQUEST || t >= 30
    || (t == MULTIPART_REQUEST && (n < 16 || RequestCovered(Get16(mem, 8))))
    || (t == MULTIPART_REPLY && (n < 16 || ReplyCovered(Get16(mem, 8))))
  }

  /** Memory reaches as far as the parser reads.  Two length checks are missing:
      a short features reply is only logged, and a queue-config request is
      compared with the size of another structure.  For these two the fields
      are read whether or not they belong to the message. */
  predicate Mapped(mem: seq<Byte>, n: nat)
    requires 8 <= n <= |mem|
  {
    (mem[1] == FEATURES_REPLY ==> 28 <= |mem|) && (mem[1] == QUEUE_GET_CONFIG_REQUEST ==> 12 <= |mem|)
  }

  predicate HeaderOk(mem: seq<Byte>, n: nat)
    requires 8 <= n <= |mem|
  {
    mem[0] == OFP_VERSION && n == Get16(mem, 2)
  }

  /** The message ends before the last field that is read. */
  predicate ReadsPastEnd(mem: seq<Byte>, n: nat)
    requires 8 <= n <= |mem|
  {
    HeaderOk(mem, n) && ((mem[1] == FEATURES_REPLY && n < 28) || (mem[1] == QUEUE_GET_CONFIG_REQUEST && n < 12))
  }

  /** The message is shorter than the structure subtracted from its length. */
  predicate Short(mem: seq<Byte>, n: nat)
    requires 8 <= n <= |mem|
  {
    (mem[1] == FEATURES_REPLY && n < 32) || (mem[1] == QUEUE_GET_CONFIG_REQUEST && n < 16)
  }

  /** `*len -= k` on a 64-bit size_t. */
  function Less(n: nat, k: nat): nat
    requires k <= 0x1_0000_0000_0000_0000
  {
    if k <= n then n - k else 0x1_0000_0000_0000_0000 - k + n
  }

  predicate BadPort(port: U32) {
    port == 0 || (port > OFPP_MAX && port != OFPP_ANY)
  }

  function BadLen(): Parsed {
    Err(BAD_REQUEST, BRC_BAD_LEN)
  }

  function DecodeRequest(s: seq<Byte>, n: nat, xid: U32): Parsed
    requires 16 <= n <= |s| && RequestCovered(Get16(s, 8))
  {
    var t, flags := Get16(s, 8), Get16(s, 10);
    if EmptyRequest(t) then Parsed(MultipartRequest(t, flags, NoBody), xid, n - 16)
    else if PortRequest(t) || IdRequest(t) then
      if n < 24 then BadLen()
      else
        var id := Get32(s, 16);
        if PortRequest(t) && BadPort(id) then BadLen()
        else if t == MP_PORT_STATS then Parsed(MultipartRequest(t, flags, PortBody(id)), xid, n - 24)
        else if t == MP_QUEUE then Parsed(MultipartRequest(t, flags, QueueBody(id, Get32(s, 20))), xid, n - 24)
        else if t == MP_GROUP then Parsed(MultipartRequest(t, flags, GroupBody(id)), xid, n - 24)
        else Parsed(MultipartRequest(t, flags, MeterBody(id)), xid, n - 24)
    else Err(BAD_REQUEST, BRC_BAD_MULTIPART)
  }

  function DecodeReply(s: seq<Byte>, n: nat, xid: U32): Parsed
    requires 16 <= n <= |s| && ReplyCovered(Get16(s, 8))
  {
    var t, flags := Get16(s, 8), Get16(s, 10);
    if t == MP_AGGREGATE then
      if n < 40 then BadLen()
      else Parsed(MultipartReply(t, flags, Aggregate(Get64(s, 16), Get64(s, 24), Get32(s, 32))), xid, n - 40)
    else if t == MP_GROUP_FEATURES then
      if n < 56 then BadLen()
      else Parsed(MultipartReply(t, flags, GroupFeatures(Get32(s, 16), Get32(s, 20),
                    [Get32(s, 24), Get32(s, 28), Get32(s, 32), Get32(s, 36)],
                    [Get32(s, 40), Get32(s, 44), Get32(s, 48), Get32(s, 52)])), xid, n - 56)
    else Err(BAD_REQUEST, BRC_BAD_MULTIPART)
  }

  /** The body readers, by message type, from the whole message. */
  function DecodeBody(s: seq<Byte>, n: nat, xid: U32): Parsed
    requires 8 <= n <= |s| && Covered(s, n) && Mapped(s, n)
  {
    var t := s[1];
    if EmptyType(t) then Parsed(Empty(t), xid, n - 8)
    else if t == ERROR then
      if n < 12 then ErrPlain else Parsed(Error(Get16(s, 8), Get16(s, 10), s[12..n]), xid, 0)
    else if t == ECHO_REQUEST || t == ECHO_REPLY then Parsed(Echo(t, s[8..n]), xid, 0)
    else if t == ROLE_REQUEST || t == ROLE_REPLY then
      if n < 24 then BadLen() else Parsed(Role(t, Get32(s, 8), Get64(s, 16)), xid, n - 24)
    else if t == FEATURES_REPLY then
      Parsed(Features(Get64(s, 8), Get32(s, 16), s[20], s[21], Get32(s, 24)), xid, Less(n, 32))
    else if t == GET_CONFIG_REPLY || t == SET_CONFIG then
      if n < 12 then BadLen() else Parsed(Config(t, Get16(s, 8), Get16(s, 10)), xid, n - 12)
    else if t == GET_ASYNC_REPLY || t == SET_ASYNC then
      if n < 32 then BadLen()
      else Parsed(Async(t, [GetHost32(s, 8), GetHost32(s, 12)], [GetHost32(s, 16), GetHost32(s, 20)],
                        [GetHost32(s, 24), GetHost32(s, 28)]), xid, n - 32)
    else if t == PORT_MOD then
      if n < 40 then BadLen()
      else Parsed(PortMod(Get32(s, 8), s[16..22], Get32(s, 24), Get32(s, 28), Get32(s, 32)), xid, n - 40)
    else if t == TABLE_MOD then
      if n < 16 then BadLen() else Parsed(TableMod(s[8], Get32(s, 12)), xid, n - 16)
    else if t == QUEUE_GET_CONFIG_REQUEST then
      if Get32(s, 8) == 0 || Get32(s, 8) > OFPP_MAX then Err(QUEUE_OP_FAILED, QOFC_BAD_PORT)
      else Parsed(QueueConfigRequest(Get32(s, 8)), xid, Less(n, 16))
    else if t == MULTIPART_REQUEST then
      if n < 16 then BadLen() else DecodeRequest(s, n, xid)
    else if t == MULTIPART_REPLY then
      if n < 16 then BadLen() else DecodeReply(s, n, xid)
    else Err(BAD_REQUEST, GMFC_BAD_TYPE)
  }

  /** `ofl_msg_unpack`: the header checks, then the body. */
  function Decode(s: seq<Byte>, n: nat): Parsed
    requires n <= |s| && (8 <= n ==> Covered(s, n) && Mapped(s, n))
  {
    if n < 8 then BadLen()
    else if s[0] != OFP_VERSION then Err(HELLO_FAILED, HFC_INCOMPATIBLE)
    else if n != Get16(s, 2) then BadLen()
    else DecodeBody(s, n, Get32(s, 4))
  }

  // ------------------------------------------------------------ round trip

  /** Port numbers in range, and not the meter-features request, which the
      packer knows and the parser does not. */
  predicate Known(m: Msg) {
    match m
    case QueueConfigRequest(port) => port != 0 && port <= OFPP_MAX
    case MultipartRequest(t, _, b) =>
      && t != MP_METER_FEATURES
      && (b.PortBody? ==> !BadPort(b.port)) && (b.QueueBody? ==> !BadPort(b.port))
    case _ => true
  }

  /** Messages the parser accepts: also short enough for the 16-bit length
      field. */
  predicate Acceptable(m: Msg) {
    SizeOf(m) < 0x1_0000 && Known(m)
  }

  lemma WireIsCovered(s: seq<Byte>, m: Msg, xid: U32)
    requires OnWire(s, m, xid)
    ensures |s| >= 8 && Covered(s, |s|) && Mapped(s, |s|)
  {
  }

  lemma RequestRoundTrip(s: seq<Byte>, m: Msg, xid: U32)
    requires OnWire(s, m, xid) && m.MultipartRequest?
    ensures |s| >= 16 && RequestCovered(Get16(s, 8))
    ensures DecodeRequest(s, |s|, xid) == Parsed(m, xid, 0) <==> Known(m)
  {
  }

  lemma ReplyRoundTrip(s: seq<Byte>, m: Msg, xid: U32)
    requires OnWire(s, m, xid) && m.MultipartReply?
    ensures DecodeReply(s, |s|, xid) == Parsed(m, xid, 0)
  {
    if m.reply.GroupFeatures? {
      var mg, ac := m.reply.maxGroups, m.reply.actions;
      assert mg == [mg[0], mg[1], mg[2], mg[3]];
      assert ac == [ac[0], ac[1], ac[2], ac[3]];
    }
  }

  lemma FixedRoundTrip(s: seq<Byte>, m: Msg, xid: U32)
    requires OnWire(s, m, xid) && !m.MultipartRequest? && !m.MultipartReply?
    ensures |s| >= 8 && Covered(s, |s|) && Mapped(s, |s|)
    ensures DecodeBody(s, |s|, xid) == Parsed(m, xid, 0) <==> Known(m)
  {
    WireIsCovered(s, m, xid);
    if m.Async? {
      assert m.packetIn == [m.packetIn[0], m.packetIn[1]];
      assert m.portStatus == [m.portStatus[0], m.portStatus[1]];
      assert m.flowRemoved == [m.flowRemoved[0], m.flowRemoved[1]];
    }
  }

  lemma BodyRoundTrip(s: seq<Byte>, m: Msg, xid: U32)
    requires OnWire(s, m, xid)
    ensures |s| >= 8 && Covered(s, |s|) && Mapped(s, |s|)
    ensures DecodeBody(s, |s|, xid) == Parsed(m, xid, 0) <==> Known(m)
  {
    WireIsCovered(s, m, xid);
    if m.MultipartRequest? {
      RequestRoundTrip(s, m, xid);
    } else if m.MultipartReply? {
      ReplyRoundTrip(s, m, xid);
    } else {
      FixedRoundTrip(s, m, xid);
    }
  }

  /** The header of a wire form lets the body through if its length fits. */
  lemma HeaderPasses(s: seq<Byte>, t: Byte, xid: U32)
    requires |s| >= 8 && HeaderAt(s, t, xid) && Covered(s, |s|) && Mapped(s, |s|)
    ensures Decode(s, |s|) == if |s| < 0x1_0000 then DecodeBody(s, |s|, xid) else BadLen()
  {
  }

  /** Reading a message off the wire gives back that message, its xid and no
      bytes left over, exactly when the message is acceptable. */
  lemma RoundTrip(s: seq<Byte>, m: Msg, xid: U32)
    requires OnWire(s, m, xid)
    ensures |s| >= 8 && Covered(s, |s|) && Mapped(s, |s|)
    ensures Decode(s, |s|) == Parsed(m, xid, 0) <==> Acceptable(m)
  {
    WireIsCovered(s, m, xid);
    HeaderPasses(s, TypeOf(m), xid);
    BodyRoundTrip(s, m, xid);
  }

  /** The asynchronous-configuration masks are stored without conversion.  Both
      ends of this code agree on them, but a peer that follows the network
      order of section A.1 reads the mask it was sent exactly when the mask is
      symmetric.  Array k of the three starts 8 bytes after the one before. */
  lemma AsyncMasksInHostOrder(s: seq<Byte>, m: Msg, xid: U32, k: nat, i: nat)
    requires OnWire(s, m, xid) && m.Async? && k < 3 && i < 2
    ensures var v := (if k == 0 then m.packetIn else if k == 1 then m.portStatus else m.flowRemoved)[i];
            Get32(s, 8 + 8 * k + 4 * i) == v <==> Symmetric(v)
  {
    HostOrderOnWire(s, 8 + 8 * k + 4 * i);
  }

  /** A peer reads the mask that holds only reason 0 as 2^24, a reason that does
      not exist. */
  lemma MaskOfReasonZeroMisread(s: seq<Byte>, m: Msg, xid: U32)
    requires OnWire(s, m, xid) && m.Async? && m.packetIn[0] == 1
    ensures Get32(s, 8) == 0x100_0000
  {
    HostBytes(s, 8);
  }

  /** Different messages never share a wire form. */
  lemma WireDetermines(s: seq<Byte>, m: Msg, x: U32, n: Msg, y: U32)
    requires OnWire(s, m, x) && OnWire(s, n, y) && Acceptable(m) && Acceptable(n)
    ensures m == n && x == y
  {
    RoundTrip(s, m, x);
    RoundTrip(s, n, y);
  }

  // --------------------------------------------------- what is read, and how far

  /** The first n bytes of s are the request m and `rest` more bytes. */
  predicate RequestIs(s: seq<Byte>, n: nat, m: Msg, rest: nat)
    requires n <= |s|
  {
    && m.MultipartRequest? && WellFormed(m) && m.mtype != MP_METER_FEATURES
    && SizeOf(m) + rest == n && FieldsAt(s[..SizeOf(m)], m)
  }

  /** Which multipart requests are accepted: the ones without a body whatever
      follows, the others when the body is there and a port it names is real.
      What is accepted holds the fields at their offsets, and the rest is what
      the message has beyond them. */
  lemma RequestAccepted(s: seq<Byte>, n: nat, xid: U32)
    requires 16 <= n <= |s| && RequestCovered(Get16(s, 8))
    ensures var t, r := Get16(s, 8), DecodeRequest(s, n, xid);
            && (r.Parsed? <==> EmptyRequest(t) || (n >= 24 && (IdRequest(t) || (PortRequest(t) && !BadPort(Get32(s, 16))))))
            && (r.Parsed? ==> RequestIs(s, n, r.msg, r.rest) && r.xid == xid)
            && (!r.Parsed? ==> r == if PortRequest(t) || IdRequest(t) then BadLen() else Err(BAD_REQUEST, BRC_BAD_MULTIPART))
  {
  }

  lemma ReplyIsPackable(s: seq<Byte>, m: Msg, xid: U32)
    requires 16 <= |s| < 0x1_0000 && ReplyCovered(Get16(s, 8))
    requires DecodeReply(s, |s|, xid) == Parsed(m, xid, 0)
    ensures WellFormed(m) && m.MultipartReply? && |s| == SizeOf(m) && Acceptable(m) && FieldsAt(s, m)
  {
  }

  lemma FixedIsPackable(s: seq<Byte>, m: Msg, xid: U32)
    requires 8 <= |s| < 0x1_0000 && Covered(s, |s|) && Mapped(s, |s|)
    requires DecodeBody(s, |s|, xid) == Parsed(m, xid, 0) && !m.MultipartRequest? && !m.MultipartReply?
    ensures WellFormed(m) && TypeOf(m) == s[1] && |s| == SizeOf(m) && Acceptable(m) && FieldsAt(s, m)
  {
  }

  lemma BodyIsPackable(s: seq<Byte>, m: Msg, xid: U32)
    requires 8 <= |s| < 0x1_0000 && Covered(s, |s|) && Mapped(s, |s|)
    requires DecodeBody(s, |s|, xid) == Parsed(m, xid, 0)
    ensures WellFormed(m) && TypeOf(m) == s[1] && |s| == SizeOf(m) && Known(m) && FieldsAt(s, m)
  {
    if m.MultipartRequest? {
      RequestAccepted(s, |s|, xid);
      assert s[..|s|] == s;
    } else if m.MultipartReply? {
      ReplyIsPackable(s, m, xid);
    } else {
      FixedIsPackable(s, m, xid);
    }
  }

  /** The other way round: a message read with nothing left over is acceptable
      and has the size of its buffer, its fields are where the layout puts them,
      and the buffer is its wire form exactly when the padding in it is zero. */
  lemma ReadIsPackable(s: seq<Byte>, m: Msg, xid: U32)
    requires |s| >= 8 && Covered(s, |s|) && Mapped(s, |s|)
    requires Decode(s, |s|) == Parsed(m, xid, 0)
    ensures WellFormed(m) && |s| == SizeOf(m) && Acceptable(m) && FieldsAt(s, m)
    ensures OnWire(s, m, xid) <==> PadsZero(s, m)
  {
    BodyIsPackable(s, m, xid);
  }

  /** What is left over is the length less the size of the message read, on
      64-bit words.  It wraps, to more than the whole message, exactly for the
      two short messages that are not refused. */
  lemma RestWrapsIff(s: seq<Byte>, n: nat)
    requires n <= |s| && (8 <= n ==> Covered(s, n) && Mapped(s, n)) && Decode(s, n).Parsed?
    ensures var r := Decode(s, n);
            && r.rest == Less(n, SizeOf(r.msg))
            && (r.rest > n <==> Short(s, n))
  {
  }

  /** One short message of each kind, complete in its fields. */
  lemma ShortMessagesAccepted()
    ensures var s: seq<Byte> := [4, 22, 0, 12, 0, 0, 0, 1, 0, 0, 0, 1];
            Decode(s, 12) == Parsed(QueueConfigRequest(1), 1, 0xFFFF_FFFF_FFFF_FFFC)
    ensures var s: seq<Byte> := [4, 6, 0, 28, 0, 0, 0, 1, 0, 0, 0, 0, 0, 0, 0, 0, 0, 0, 0, 0, 0, 0, 0, 0, 0, 0, 0, 0];
            Decode(s, 28) == Parsed(Features(0, 0, 0, 0, 0), 1, 0xFFFF_FFFF_FFFF_FFFC)
  {
  }

  /** mem holds the message s and enough memory behind it to read from. */
  predicate Holds(mem: seq<Byte>, s: seq<Byte>) {
    |s| <= |mem| && 28 <= |mem| && mem[..|s|] == s
  }

  predicate SameReading(a: seq<Byte>, b: seq<Byte>, n: nat)
    requires n <= |a| && n <= |b|
  {
    && (8 <= n ==> Covered(a, n) && Mapped(a, n) && Covered(b, n) && Mapped(b, n))
    && Decode(a, n) == Decode(b, n)
  }

  /** s in 32 bytes of memory, zero behind it but for one byte. */
  function Behind(s: seq<Byte>, last: nat, v: Byte): (mem: seq<Byte>)
    requires |s| <= last < 32
    ensures |mem| == 32 && mem[..|s|] == s && mem[last] == v
    ensures forall i | |s| <= i < 32 && i != last :: mem[i] == 0
  {
    s + seq(32 - |s|, i requires 0 <= i => if i == last - |s| then v else 0)
  }

  lemma FieldPastEnd(s: seq<Byte>, a: seq<Byte>, b: seq<Byte>)
    requires |s| >= 8 && Covered(s, |s|) && ReadsPastEnd(s, |s|) && Holds(a, s) && Holds(b, s)
    requires var last := if s[1] == FEATURES_REPLY then 27 else 11;
             && a[last] == 0 && b[last] == 1 && forall i | |s| <= i < last :: a[i] == b[i]
    ensures !SameReading(a, b, |s|)
  {
    assert forall i | 0 <= i < |s| :: a[..|s|][i] == a[i] && b[..|s|][i] == b[i];
  }

  predicate Agree(a: seq<Byte>, b: seq<Byte>, n: nat) {
    n <= |a| && n <= |b| && forall i | 0 <= i < n :: a[i] == b[i]
  }

  lemma SameRequest(a: seq<Byte>, b: seq<Byte>, n: nat, xid: U32)
    requires n >= 16 && Agree(a, b, n) && RequestCovered(Get16(a, 8)) && RequestCovered(Get16(b, 8))
    ensures DecodeRequest(a, n, xid) == DecodeRequest(b, n, xid)
  {
  }

  lemma SameReply(a: seq<Byte>, b: seq<Byte>, n: nat, xid: U32)
    requires n >= 16 && Agree(a, b, n) && ReplyCovered(Get16(a, 8)) && ReplyCovered(Get16(b, 8))
    ensures DecodeReply(a, n, xid) == DecodeReply(b, n, xid)
  {
  }

  lemma SameFixed(a: seq<Byte>, b: seq<Byte>, n: nat, xid: U32)
    requires n >= 8 && Agree(a, b, n) && Covered(a, n) && Covered(b, n) && Mapped(a, n) && Mapped(b, n)
    requires !(a[1] == FEATURES_REPLY && n < 28) && !(a[1] == QUEUE_GET_CONFIG_REQUEST && n < 12)
    requires n < 16 || (a[1] != MULTIPART_REQUEST && a[1] != MULTIPART_REPLY)
    ensures DecodeBody(a, n, xid) == DecodeBody(b, n, xid)
  {
    assert a[8..n] == b[8..n];
    if n >= 12 { assert a[12..n] == b[12..n]; }
    if n >= 22 { assert a[16..22] == b[16..22]; }
  }

  /** Two memories that begin with the same complete message. */
  lemma SameMessage(a: seq<Byte>, b: seq<Byte>, n: nat)
    requires n >= 8 && Agree(a, b, n) && Covered(a, n) && Mapped(a, n) && Mapped(b, n) && !ReadsPastEnd(a, n)
    ensures Covered(b, n) && Decode(a, n) == Decode(b, n)
  {
    if HeaderOk(a, n) {
      if n >= 16 && a[1] == MULTIPART_REQUEST {
        SameRequest(a, b, n, Get32(a, 4));
      } else if n >= 16 && a[1] == MULTIPART_REPLY {
        SameReply(a, b, n, Get32(a, 4));
      } else {
        SameFixed(a, b, n, Get32(a, 4));
      }
    }
  }

  lemma NothingPastEnd(s: seq<Byte>, a: seq<Byte>, b: seq<Byte>)
    requires |s| >= 8 && Covered(s, |s|) && !ReadsPastEnd(s, |s|) && Holds(a, s) && Holds(b, s)
    ensures SameReading(a, b, |s|)
  {
    var n := |s|;
    assert forall i | 0 <= i < n :: a[..n][i] == a[i] && b[..n][i] == b[i] && a[i] == s[i];
    SameMessage(a, b, n);
  }

  /** What is read depends on the message alone, and not on the memory behind
      it, exactly when no field is read past the end. */
  lemma MessageDecidesIff(s: seq<Byte>)
    requires |s| >= 8 && Covered(s, |s|)
    ensures (forall a, b | Holds(a, s) && Holds(b, s) :: SameReading(a, b, |s|)) <==> !ReadsPastEnd(s, |s|)
  {
    if ReadsPastEnd(s, |s|) {
      var last := if s[1] == FEATURES_REPLY then 27 else 11;
      var a, b := Behind(s, last, 0), Behind(s, last, 1);
      FieldPastEnd(s, a, b);
      assert Holds(a, s) && Holds(b, s) && !SameReading(a, b, |s|);
    } else {
      forall a, b | Holds(a, s) && Holds(b, s)
        ensures SameReading(a, b, |s|)
      {
        NothingPastEnd(s, a, b);
      }
    }
  }

  /** A message of nothing but its header, of either kind, and two memories that
      make two different messages of it. */
  lemma HeadersReadPastEnd()
    ensures var s: seq<Byte> := [4, 22, 0, 8, 0, 0, 0, 1];
            && ReadsPastEnd(s, 8)
            && Decode(s + [0, 0, 0, 1], 8) == Parsed(QueueConfigRequest(1), 1, Less(8, 16))
            && Decode(s + [0, 0, 0, 2], 8) == Parsed(QueueConfigRequest(2), 1, Less(8, 16))
    ensures var s: seq<Byte> := [4, 6, 0, 8, 0, 0, 0, 1];
            && ReadsPastEnd(s, 8)
            && Decode(s + [0, 0, 0, 0, 0, 0, 0, 1, 0, 0, 0, 0, 0, 0, 0, 0, 0, 0, 0, 0], 8)
               == Parsed(Features(1, 0, 0, 0, 0), 1, Less(8, 32))
            && Decode(s + [0, 0, 0, 0, 0, 0, 0, 2, 0, 0, 0, 0, 0, 0, 0, 0, 0, 0, 0, 0], 8)
               == Parsed(Features(2, 0, 0, 0, 0), 1, Less(8, 32))
  {
  }
}
