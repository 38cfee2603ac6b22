/** src/cc_create_msg.c and src/cc_parse_msg.c on buffers: every packer
    allocates the message and stores its fields in place, the unpacker checks
    lengths and loads them. */
module Codec {
  import opened Wire
  import opened Messages
  import Standard

  // --------------------------------------------------------------- packing

  method PackError(m: Msg) returns (buf: array<Byte>)
    requires m.Error?
    ensures fresh(buf) && buf.Length == SizeOf(m) && BodyAt(buf[..], m)
  {
    buf := new Byte[12 + |m.data|];
    Put16(buf, 8, m.etype);
    Put16(buf, 10, m.code);
    Copy(buf, 12, m.data);
    assert buf[12..] == m.data;
  }

  method PackEcho(m: Msg) returns (buf: array<Byte>)
    requires m.Echo? && WellFormed(m)
    ensures fresh(buf) && buf.Length == SizeOf(m) && BodyAt(buf[..], m)
  {
    buf := new Byte[8 + |m.data|];
    if |m.data| > 0 {
      Copy(buf, 8, m.data);
    }
    assert buf[8..] == m.data;
  }

  method PackRole(m: Msg) returns (buf: array<Byte>)
    requires m.Role? && WellFormed(m)
    ensures fresh(buf) && buf.Length == SizeOf(m) && BodyAt(buf[..], m)
  {
    buf := new Byte[24];
    Put32(buf, 8, m.role);
    Clear(buf, 12, 4);
    Put64(buf, 16, m.generationId);
  }

  lemma ZeroWord(s: seq<Byte>, o: nat)
    requires o + 4 <= |s| && Get32(s, o) == 0
    ensures Zeros(s, o, o + 4)
  {
  }

  method PackFeatures(m: Msg) returns (buf: array<Byte>)
    requires m.Features?
    ensures fresh(buf) && buf.Length == SizeOf(m) && BodyAt(buf[..], m)
  {
    buf := new Byte[32];
    Put64(buf, 8, m.datapathId);
    Put32(buf, 16, m.nBuffers);
    Put8(buf, 20, m.nTables);
    Put8(buf, 21, m.auxiliaryId);
    Clear(buf, 22, 2);
    Put32(buf, 24, m.capabilities);
    Put32(buf, 28, 0);
    ZeroWord(buf[..], 28);
  }

  method PackConfig(m: Msg) returns (buf: array<Byte>)
    requires m.Config? && WellFormed(m)
    ensures fresh(buf) && buf.Length == SizeOf(m) && BodyAt(buf[..], m)
  {
    buf := new Byte[12];
    Put16(buf, 10, m.missSendLen);
    Put16(buf, 8, m.flags);
  }

  /** Element i of the three mask arrays. */
  ghost predicate MasksAt(s: seq<Byte>, m: Msg, i: nat)
    requires m.Async? && WellFormed(m) && i < 2
  {
    && |s| == 32 && GetHost32(s, 8 + 4 * i) == m.packetIn[i]
    && GetHost32(s, 16 + 4 * i) == m.portStatus[i] && GetHost32(s, 24 + 4 * i) == m.flowRemoved[i]
  }

  method PutMasks(buf: array<Byte>, m: Msg, i: nat)
    requires buf.Length == 32 && m.Async? && WellFormed(m) && i < 2
    modifies buf
    ensures MasksAt(buf[..], m, i)
    ensures forall k {:trigger MasksAt(buf[..], m, k)} | 0 <= k < 2 && k != i && old(MasksAt(buf[..], m, k)) ::
              MasksAt(buf[..], m, k)
  {
    PutHost32(buf, 8 + 4 * i, m.packetIn[i]);
    PutHost32(buf, 16 + 4 * i, m.portStatus[i]);
    PutHost32(buf, 24 + 4 * i, m.flowRemoved[i]);
  }

  method PackAsync(m: Msg) returns (buf: array<Byte>)
    requires m.Async? && WellFormed(m)
    ensures fresh(buf) && buf.Length == SizeOf(m) && BodyAt(buf[..], m)
  {
    buf := new Byte[32];
    var i := 0;
    while i < 2
      invariant 0 <= i <= 2
      invariant 0 < i ==> MasksAt(buf[..], m, 0)
      invariant 1 < i ==> MasksAt(buf[..], m, 1)
    {
      PutMasks(buf, m, i);
      i := i + 1;
    }
  }

  method PackPortMod(m: Msg) returns (buf: array<Byte>)
    requires m.PortMod? && WellFormed(m)
    ensures fresh(buf) && buf.Length == SizeOf(m) && BodyAt(buf[..], m)
  {
    buf := new Byte[40];
    Put32(buf, 8, m.portNo);
    Clear(buf, 12, 4);
    Copy(buf, 16, m.hwAddr);
    Clear(buf, 22, 2);
    ghost var s := buf[..];
    Put32(buf, 24, m.config);
    Put32(buf, 28, m.mask);
    Put32(buf, 32, m.advertise);
    Clear(buf, 36, 4);
    assert buf[16..22] == s[16..22];
  }

  method PackTableMod(m: Msg) returns (buf: array<Byte>)
    requires m.TableMod?
    ensures fresh(buf) && buf.Length == SizeOf(m) && BodyAt(buf[..], m)
  {
    buf := new Byte[16];
    Put8(buf, 8, m.tableId);
    Clear(buf, 9, 3);
    Put32(buf, 12, m.tableConfig);
  }

  method PackQueueConfigRequest(m: Msg) returns (buf: array<Byte>)
    requires m.QueueConfigRequest?
    ensures fresh(buf) && buf.Length == SizeOf(m) && BodyAt(buf[..], m)
  {
    buf := new Byte[16];
    Put32(buf, 8, m.port);
    Clear(buf, 12, 4);
  }

  method PutMultipartHeader(buf: array<Byte>, t: U16, flags: U16)
    requires buf.Length >= 16
    modifies buf
    ensures Get16(buf[..], 8) == t && Get16(buf[..], 10) == flags && Zeros(buf[..], 12, 16)
    ensures SameOutside(old(buf[..]), buf[..], 8, 16)
  {
    Put16(buf, 8, t);
    Put16(buf, 10, flags);
    Clear(buf, 12, 4);
  }

  /** The body of a multipart request, then the multipart header. */
  method PackMultipartRequest(m: Msg) returns (buf: array<Byte>)
    requires m.MultipartRequest? && WellFormed(m)
    ensures fresh(buf) && buf.Length == SizeOf(m) && BodyAt(buf[..], m)
  {
    match m.body {
      case NoBody =>
        buf := new Byte[16];
      case PortBody(port) =>
        buf := new Byte[24];
        Put32(buf, 16, port);
        Clear(buf, 20, 4);
      case QueueBody(port, q) =>
        buf := new Byte[24];
        Put32(buf, 16, port);
        Put32(buf, 20, q);
      case GroupBody(id) =>
        buf := new Byte[24];
        Put32(buf, 16, id);
        Clear(buf, 20, 4);
      case MeterBody(id) =>
        buf := new Byte[24];
        Put32(buf, 16, id);
        Clear(buf, 20, 4);
    }
    PutMultipartHeader(buf, m.mtype, m.mflags);
  }

  method PackAggregate(r: Reply) returns (buf: array<Byte>)
    requires r.Aggregate?
    ensures fresh(buf) && buf.Length == 40 && ReplyAt(buf[..], r) && Zeros(buf[..], 36, 40)
  {
    buf := new Byte[40];
    Put64(buf, 16, r.packets);
    Put64(buf, 24, r.bytes);
    Put32(buf, 32, r.flows);
    Clear(buf, 36, 4);
  }

  /** An array of 32-bit fields in network order. */
  ghost predicate WordsAt(s: seq<Byte>, o: nat, words: seq<U32>) {
    o + 4 * |words| <= |s| && forall k {:trigger words[k]} | 0 <= k < |words| :: Get32(s, o + 4 * k) == words[k]
  }

  /** A store of one field outside the array leaves it alone. */
  lemma WordsFrame(s: seq<Byte>, t: seq<Byte>, o: nat, words: seq<U32>, at: nat)
    requires WordsAt(s, o, words) && SameOutside(s, t, at, at + 4)
    requires at + 4 <= o || o + 4 * |words| <= at
    ensures WordsAt(t, o, words)
  {
    forall k {:trigger words[k]} | 0 <= k < |words|
      ensures Get32(t, o + 4 * k) == words[k]
    {
      assert Get32(s, o + 4 * k) == words[k];
    }
  }

  lemma WordsGrow(s: seq<Byte>, o: nat, words: seq<U32>, i: nat)
    requires i < |words| && WordsAt(s, o, words[..i]) && o + 4 * i + 4 <= |s| && Get32(s, o + 4 * i) == words[i]
    ensures WordsAt(s, o, words[..i + 1])
  {
    forall k {:trigger words[..i + 1][k]} | 0 <= k < i + 1
      ensures Get32(s, o + 4 * k) == words[..i + 1][k]
    {
      assert k < i ==> words[..i][k] == words[k];
    }
  }

  method PackGroupFeatures(r: Reply) returns (buf: array<Byte>)
    requires r.GroupFeatures? && |r.maxGroups| == 4 && |r.actions| == 4
    ensures fresh(buf) && buf.Length == 56 && ReplyAt(buf[..], r)
  {
    buf := new Byte[56];
    Put32(buf, 16, r.types);
    Put32(buf, 20, r.capabilities);
    var i := 0;
    while i < 4
      invariant 0 <= i <= 4
      invariant Get32(buf[..], 16) == r.types && Get32(buf[..], 20) == r.capabilities
      invariant WordsAt(buf[..], 24, r.maxGroups[..i]) && WordsAt(buf[..], 40, r.actions[..i])
    {
      ghost var s := buf[..];
      Put32(buf, 24 + 4 * i, r.maxGroups[i]);
      ghost var t := buf[..];
      WordsFrame(s, t, 24, r.maxGroups[..i], 24 + 4 * i);
      WordsFrame(s, t, 40, r.actions[..i], 24 + 4 * i);
      WordsGrow(t, 24, r.maxGroups, i);
      Put32(buf, 40 + 4 * i, r.actions[i]);
      WordsFrame(t, buf[..], 24, r.maxGroups[..i + 1], 40 + 4 * i);
      WordsFrame(t, buf[..], 40, r.actions[..i], 40 + 4 * i);
      WordsGrow(buf[..], 40, r.actions, i);
      i := i + 1;
    }
    assert r.maxGroups[..4] == r.maxGroups && r.actions[..4] == r.actions;
  }

  lemma ReplyFrame(s: seq<Byte>, t: seq<Byte>, r: Reply)
    requires |s| == |t| == if r.Aggregate? then 40 else 56
    requires r.GroupFeatures? ==> |r.maxGroups| == 4 && |r.actions| == 4
    requires ReplyAt(s, r) && SameOutside(s, t, 0, 16)
    ensures ReplyAt(t, r)
  {
    if r.GroupFeatures? {
      forall i {:trigger r.maxGroups[i]} | 0 <= i < 4
        ensures Get32(t, 24 + 4 * i) == r.maxGroups[i]
      {
        assert Get32(s, 24 + 4 * i) == r.maxGroups[i];
      }
      forall i {:trigger r.actions[i]} | 0 <= i < 4
        ensures Get32(t, 40 + 4 * i) == r.actions[i]
      {
        assert Get32(s, 40 + 4 * i) == r.actions[i];
      }
    }
  }

  method PackMultipartReply(m: Msg) returns (buf: array<Byte>)
    requires m.MultipartReply? && WellFormed(m)
    ensures fresh(buf) && buf.Length == SizeOf(m) && BodyAt(buf[..], m)
  {
    if m.reply.Aggregate? {
      buf := PackAggregate(m.reply);
    } else {
      buf := PackGroupFeatures(m.reply);
    }
    ghost var s := buf[..];
    PutMultipartHeader(buf, m.rtype, m.rflags);
    ReplyFrame(s, buf[..], m.reply);
  }

  /** The switch of `ofl_msg_pack` over message types. */
  method PackBody(m: Msg) returns (buf: array<Byte>)
    requires WellFormed(m)
    ensures fresh(buf) && buf.Length == SizeOf(m) && BodyAt(buf[..], m)
  {
    match m {
      case Empty(_) => buf := new Byte[8];
      case Error(_, _, _) => buf := PackError(m);
      case Echo(_, _) => buf := PackEcho(m);
      case Role(_, _, _) => buf := PackRole(m);
      case Features(_, _, _, _, _) => buf := PackFeatures(m);
      case Config(_, _, _) => buf := PackConfig(m);
      case Async(_, _, _, _) => buf := PackAsync(m);
      case PortMod(_, _, _, _, _) => buf := PackPortMod(m);
      case TableMod(_, _) => buf := PackTableMod(m);
      case QueueConfigRequest(_) => buf := PackQueueConfigRequest(m);
      case MultipartRequest(_, _, _) => buf := PackMultipartRequest(m);
      case MultipartReply(_, _, _) => buf := PackMultipartReply(m);
    }
  }

  /** The header fields lie before every body. */
  lemma BodyFrame(s: seq<Byte>, t: seq<Byte>, m: Msg)
    requires WellFormed(m) && |s| == |t| == SizeOf(m) && BodyAt(s, m)
    requires SameOutside(s, t, 0, 8)
    ensures BodyAt(t, m)
  {
    match m
    case Error(_, _, data) => assert t[12..] == s[12..];
    case Echo(_, data) => assert t[8..] == s[8..];
    case PortMod(_, _, _, _, _) => assert t[16..22] == s[16..22];
    case MultipartReply(_, _, r) => ReplyFrame(s, t, r);
    case _ =>
  }

  /** `ofl_msg_pack`: body, then the common header. */
  method Pack(m: Msg, xid: U32) returns (buf: array<Byte>)
    requires WellFormed(m)
    ensures fresh(buf) && OnWire(buf[..], m, xid)
    ensures buf.Length >= 8 && Standard.Header(buf[..], xid) && Standard.Table(buf[..], m) && Standard.Padding(buf[..], m)
  {
    buf := PackBody(m);
    ghost var s := buf[..];
    PackHeader(buf, TypeOf(m), xid);
    BodyFrame(s, buf[..], m);
    Standard.OnWireIff(buf[..], m, xid);
  }

  // --------------------------------------------------------------- reading

  method UnpackEmpty(buf: array<Byte>, bufLen: nat, xid: U32) returns (r: Parsed)
    requires 8 <= bufLen <= buf.Length && EmptyType(buf[1])
    ensures r == DecodeBody(buf[..], bufLen, xid)
  {
    var len := bufLen - 8;
    r := Parsed(Empty(buf[1]), xid, len);
  }

  method UnpackError(buf: array<Byte>, bufLen: nat, xid: U32) returns (r: Parsed)
    requires 8 <= bufLen <= buf.Length && buf[1] == ERROR
    ensures r == DecodeBody(buf[..], bufLen, xid)
  {
    var len := bufLen;
    if len < 12 {
      return ErrPlain;
    }
    len := len - 12;
    var data := if len > 0 then buf[12..12 + len] else [];
    r := Parsed(Error(Get16(buf[..], 8), Get16(buf[..], 10), data), xid, 0);
    assert data == buf[..][12..bufLen];
  }

  method UnpackEcho(buf: array<Byte>, bufLen: nat, xid: U32) returns (r: Parsed)
    requires 8 <= bufLen <= buf.Length && (buf[1] == ECHO_REQUEST || buf[1] == ECHO_REPLY)
    ensures r == DecodeBody(buf[..], bufLen, xid)
  {
    var len := bufLen - 8;
    var data := if len > 0 then buf[8..8 + len] else [];
    r := Parsed(Echo(buf[1], data), xid, 0);
    assert data == buf[..][8..bufLen];
  }

  method UnpackRole(buf: array<Byte>, bufLen: nat, xid: U32) returns (r: Parsed)
    requires 8 <= bufLen <= buf.Length && (buf[1] == ROLE_REQUEST || buf[1] == ROLE_REPLY)
    ensures r == DecodeBody(buf[..], bufLen, xid)
  {
    var len := bufLen;
    if len < 24 {
      return BadLen();
    }
    len := len - 24;
    r := Parsed(Role(buf[1], Get32(buf[..], 8), Get64(buf[..], 16)), xid, len);
  }

  method UnpackFeatures(buf: array<Byte>, bufLen: nat, xid: U32) returns (r: Parsed)
    requires 8 <= bufLen <= buf.Length && buf[1] == FEATURES_REPLY && 28 <= buf.Length
    ensures r == DecodeBody(buf[..], bufLen, xid)
  {
    var len := Less(bufLen, 32);
    var s := buf[..];
    r := Parsed(Features(Get64(s, 8), Get32(s, 16), buf[20], buf[21], Get32(s, 24)), xid, len);
  }

  method UnpackConfig(buf: array<Byte>, bufLen: nat, xid: U32) returns (r: Parsed)
    requires 8 <= bufLen <= buf.Length && (buf[1] == GET_CONFIG_REPLY || buf[1] == SET_CONFIG)
    ensures r == DecodeBody(buf[..], bufLen, xid)
  {
    var len := bufLen;
    if len < 12 {
      return BadLen();
    }
    len := len - 12;
    var missSendLen := Get16(buf[..], 10);
    var flags := Get16(buf[..], 8);
    r := Parsed(Config(buf[1], flags, missSendLen), xid, len);
  }

  method UnpackAsync(buf: array<Byte>, bufLen: nat, xid: U32) returns (r: Parsed)
    requires 8 <= bufLen <= buf.Length && (buf[1] == GET_ASYNC_REPLY || buf[1] == SET_ASYNC)
    ensures r == DecodeBody(buf[..], bufLen, xid)
  {
    var len := bufLen;
    if len < 32 {
      return BadLen();
    }
    len := len - 32;
    var packetIn, portStatus, flowRemoved := [], [], [];
    var i := 0;
    while i < 2
      invariant 0 <= i <= 2
      invariant packetIn == [GetHost32(buf[..], 8), GetHost32(buf[..], 12)][..i]
      invariant portStatus == [GetHost32(buf[..], 16), GetHost32(buf[..], 20)][..i]
      invariant flowRemoved == [GetHost32(buf[..], 24), GetHost32(buf[..], 28)][..i]
    {
      packetIn := packetIn + [GetHost32(buf[..], 8 + 4 * i)];
      portStatus := portStatus + [GetHost32(buf[..], 16 + 4 * i)];
      flowRemoved := flowRemoved + [GetHost32(buf[..], 24 + 4 * i)];
      i := i + 1;
    }
    assert packetIn == [GetHost32(buf[..], 8), GetHost32(buf[..], 12)];
    assert portStatus == [GetHost32(buf[..], 16), GetHost32(buf[..], 20)];
    assert flowRemoved == [GetHost32(buf[..], 24), GetHost32(buf[..], 28)];
    r := Parsed(Async(buf[1], packetIn, portStatus, flowRemoved), xid, len);
  }

  method UnpackPortMod(buf: array<Byte>, bufLen: nat, xid: U32) returns (r: Parsed)
    requires 8 <= bufLen <= buf.Length && buf[1] == PORT_MOD
    ensures r == DecodeBody(buf[..], bufLen, xid)
  {
    var len := bufLen;
    if len < 40 {
      return BadLen();
    }
    len := len - 40;
    var s := buf[..];
    r := Parsed(PortMod(Get32(s, 8), s[16..22], Get32(s, 24), Get32(s, 28), Get32(s, 32)), xid, len);
  }

  method UnpackTableMod(buf: array<Byte>, bufLen: nat, xid: U32) returns (r: Parsed)
    requires 8 <= bufLen <= buf.Length && buf[1] == TABLE_MOD
    ensures r == DecodeBody(buf[..], bufLen, xid)
  {
    var len := bufLen;
    if len < 16 {
      return BadLen();
    }
    len := len - 16;
    r := Parsed(TableMod(buf[8], Get32(buf[..], 12)), xid, len);
  }

  method UnpackQueueConfigRequest(buf: array<Byte>, bufLen: nat, xid: U32) returns (r: Parsed)
    requires 8 <= bufLen <= buf.Length && 12 <= buf.Length && buf[1] == QUEUE_GET_CONFIG_REQUEST
    ensures r == DecodeBody(buf[..], bufLen, xid)
  {
    var port := Get32(buf[..], 8);
    if port == 0 || port > OFPP_MAX {
      return Err(QUEUE_OP_FAILED, QOFC_BAD_PORT);
    }
    r := Parsed(QueueConfigRequest(port), xid, Less(bufLen, 16));
  }

  /** The request body; `len` counts what follows the multipart header.  A request
      without a body is accepted whatever follows, one with a body if it is there
      and a port it names is real; the fields are those at their offsets. */
  method UnpackRequestBody(buf: array<Byte>, bufLen: nat, t: U16, xid: U32) returns (r: Parsed)
    requires 16 <= bufLen <= buf.Length && t == Get16(buf[..], 8) && RequestCovered(t)
    ensures r == DecodeRequest(buf[..], bufLen, xid)
    ensures r.Parsed? <==>
              EmptyRequest(t) || (bufLen >= 24 && (IdRequest(t) || (PortRequest(t) && !BadPort(Get32(buf[..], 16)))))
    ensures r.Parsed? ==> RequestIs(buf[..], bufLen, r.msg, r.rest) && r.xid == xid
    ensures !r.Parsed? ==> r == if PortRequest(t) || IdRequest(t) then BadLen() else Err(BAD_REQUEST, BRC_BAD_MULTIPART)
  {
    RequestAccepted(buf[..], bufLen, xid);
    var flags, len := Get16(buf[..], 10), bufLen - 16;
    if t == MP_DESC || t == MP_TABLE || t == MP_GROUP_DESC || t == MP_GROUP_FEATURES || t == MP_PORT_DESC {
      return Parsed(MultipartRequest(t, flags, NoBody), xid, len);
    }
    if t == MP_PORT_STATS || t == MP_QUEUE {
      if len < 8 {
        return BadLen();
      }
      var port := Get32(buf[..], 16);
      if port == 0 || (port > OFPP_MAX && port != OFPP_ANY) {
        return BadLen();
      }
      len := len - 8;
      var body := if t == MP_PORT_STATS then PortBody(port) else QueueBody(port, Get32(buf[..], 20));
      return Parsed(MultipartRequest(t, flags, body), xid, len);
    }
    if t == MP_GROUP || t == MP_METER || t == MP_METER_CONFIG {
      if len < 8 {
        return BadLen();
      }
      len := len - 8;
      var id := Get32(buf[..], 16);
      return Parsed(MultipartRequest(t, flags, if t == MP_GROUP then GroupBody(id) else MeterBody(id)), xid, len);
    }
    r := Err(BAD_REQUEST, BRC_BAD_MULTIPART);
  }

  method UnpackAggregate(buf: array<Byte>, bufLen: nat, flags: U16, xid: U32) returns (r: Parsed)
    requires 16 <= bufLen <= buf.Length && Get16(buf[..], 8) == MP_AGGREGATE && flags == Get16(buf[..], 10)
    ensures r == DecodeReply(buf[..], bufLen, xid)
  {
    var len := bufLen - 16;
    if len < 24 {
      return BadLen();
    }
    len := len - 24;
    var s := buf[..];
    r := Parsed(MultipartReply(MP_AGGREGATE, flags, Aggregate(Get64(s, 16), Get64(s, 24), Get32(s, 32))), xid, len);
  }

  method UnpackGroupFeatures(buf: array<Byte>, bufLen: nat, flags: U16, xid: U32) returns (r: Parsed)
    requires 16 <= bufLen <= buf.Length && Get16(buf[..], 8) == MP_GROUP_FEATURES && flags == Get16(buf[..], 10)
    ensures r == DecodeReply(buf[..], bufLen, xid)
  {
    var len := bufLen - 16;
    if len < 40 {
      return BadLen();
    }
    len := len - 40;
    var s := buf[..];
    var maxGroups, actions := [], [];
    var i := 0;
    while i < 4
      invariant 0 <= i <= 4
      invariant maxGroups == [Get32(s, 24), Get32(s, 28), Get32(s, 32), Get32(s, 36)][..i]
      invariant actions == [Get32(s, 40), Get32(s, 44), Get32(s, 48), Get32(s, 52)][..i]
    {
      maxGroups := maxGroups + [Get32(s, 24 + 4 * i)];
      actions := actions + [Get32(s, 40 + 4 * i)];
      i := i + 1;
    }
    assert maxGroups == [Get32(s, 24), Get32(s, 28), Get32(s, 32), Get32(s, 36)];
    assert actions == [Get32(s, 40), Get32(s, 44), Get32(s, 48), Get32(s, 52)];
    var reply := GroupFeatures(Get32(s, 16), Get32(s, 20), maxGroups, actions);
    r := Parsed(MultipartReply(MP_GROUP_FEATURES, flags, reply), xid, len);
  }

  method UnpackMultipart(buf: array<Byte>, bufLen: nat, xid: U32) returns (r: Parsed)
    requires 8 <= bufLen <= buf.Length && (buf[1] == MULTIPART_REQUEST || buf[1] == MULTIPART_REPLY) && Covered(buf[..], bufLen)
    ensures r == DecodeBody(buf[..], bufLen, xid)
  {
    if bufLen < 16 {
      return BadLen();
    }
    var t, flags := Get16(buf[..], 8), Get16(buf[..], 10);
    if buf[1] == MULTIPART_REQUEST {
      r := UnpackRequestBody(buf, bufLen, t, xid);
    } else if t == MP_AGGREGATE {
      r := UnpackAggregate(buf, bufLen, flags, xid);
    } else if t == MP_GROUP_FEATURES {
      r := UnpackGroupFeatures(buf, bufLen, flags, xid);
    } else {
      r := Err(BAD_REQUEST, BRC_BAD_MULTIPART);
    }
  }

  /** The switch of `ofl_msg_unpack` over message types. */
  method UnpackBody(buf: array<Byte>, bufLen: nat, xid: U32) returns (r: Parsed)
    requires 8 <= bufLen <= buf.Length && Covered(buf[..], bufLen) && Mapped(buf[..], bufLen)
    ensures r == DecodeBody(buf[..], bufLen, xid)
  {
    var t := buf[1];
    if EmptyType(t) {
      r := UnpackEmpty(buf, bufLen, xid);
    } else if t == ERROR {
      r := UnpackError(buf, bufLen, xid);
    } else if t == ECHO_REQUEST || t == ECHO_REPLY {
      r := UnpackEcho(buf, bufLen, xid);
    } else if t == FEATURES_REPLY {
      r := UnpackFeatures(buf, bufLen, xid);
    } else if t == GET_CONFIG_REPLY || t == SET_CONFIG {
      r := UnpackConfig(buf, bufLen, xid);
    } else if t == GET_ASYNC_REPLY || t == SET_ASYNC {
      r := UnpackAsync(buf, bufLen, xid);
    } else if t == PORT_MOD {
      r := UnpackPortMod(buf, bufLen, xid);
    } else if t == TABLE_MOD {
      r := UnpackTableMod(buf, bufLen, xid);
    } else if t == MULTIPART_REQUEST || t == MULTIPART_REPLY {
      r := UnpackMultipart(buf, bufLen, xid);
    } else if t == ROLE_REQUEST || t == ROLE_REPLY {
      r := UnpackRole(buf, bufLen, xid);
    } else if t == QUEUE_GET_CONFIG_REQUEST {
      r := UnpackQueueConfigRequest(buf, bufLen, xid);
    } else {
      r := Err(BAD_REQUEST, GMFC_BAD_TYPE);
    }
  }

  /** A complete message is read the same without the memory behind it. */
  lemma MessageAlone(mem: seq<Byte>, n: nat)
    requires 8 <= n <= |mem| && Covered(mem, n) && Mapped(mem, n) && !Short(mem, n)
    ensures Covered(mem[..n], n) && Mapped(mem[..n], n)
    ensures Decode(mem[..n], n) == Decode(mem, n)
  {
    assert forall i | 0 <= i < n :: mem[..n][i] == mem[i];
    SameMessage(mem, mem[..n], n);
  }

  /** `ofl_msg_unpack` on the first `bufLen` bytes of memory: what the header
      must satisfy, then the body.  Whatever is read without a byte left over has
      its fields at their offsets, and is packed back into the same bytes if the
      padding is zero. */
  method Unpack(buf: array<Byte>, bufLen: nat) returns (r: Parsed)
    requires bufLen <= buf.Length && (bufLen >= 8 ==> Covered(buf[..], bufLen) && Mapped(buf[..], bufLen))
    ensures r == Decode(buf[..], bufLen) && Standard.Answer(buf[..], bufLen, r)
    ensures r.Parsed? && r.rest == 0 ==>
              && WellFormed(r.msg) && bufLen == SizeOf(r.msg) && Acceptable(r.msg) && FieldsAt(buf[..bufLen], r.msg)
              && (OnWire(buf[..bufLen], r.msg, r.xid) <==> PadsZero(buf[..bufLen], r.msg))
    ensures r.Parsed? ==> (r.rest > bufLen <==> Short(buf[..], bufLen))
  {
    Standard.AnswerIs(buf[..], bufLen);
    if bufLen < 8 {
      return BadLen();
    }
    if buf[0] != OFP_VERSION {
      return Err(HELLO_FAILED, HFC_INCOMPATIBLE);
    }
    if bufLen != Get16(buf[..], 2) {
      return BadLen();
    }
    r := UnpackBody(buf, bufLen, Get32(buf[..], 4));
    if r.Parsed? {
      RestWrapsIff(buf[..], bufLen);
      if r.rest == 0 {
        MessageAlone(buf[..], bufLen);
        ReadIsPackable(buf[..bufLen], r.msg, r.xid);
      }
    }
  }

  /** Packing a message and reading the buffer back gives the message, its xid
      and no leftover exactly when the message is acceptable. */
  method PackThenUnpack(m: Msg, xid: U32) returns (r: Parsed)
    requires WellFormed(m)
    ensures r == Parsed(m, xid, 0) <==> Acceptable(m)
  {
    var buf := Pack(m, xid);
    WireIsCovered(buf[..], m, xid);
    RoundTrip(buf[..], m, xid);
    r := Unpack(buf, buf.Length);
  }
}
