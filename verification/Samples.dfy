/** The numbers and offsets of the OpenFlow 1.3 specification on concrete bytes:
    one action, one message and one packet of each kind, written out. */
module Samples {
  import opened Wire
  import Actions
  import PacketOut
  import opened Messages

  // --------------------------------------------------------------- actions

  /** The struct of an action, byte by byte. */
  predicate Struct(bytes: seq<Byte>, a: Actions.Action) {
    Actions.LenOf(a) == |bytes| && Actions.ActionAt(bytes, 0, a)
  }

  lemma PlainActions()
    ensures Struct([0, 11, 0, 8, 0, 0, 0, 0], Actions.CopyTtlOut)
    ensures Struct([0, 12, 0, 8, 0, 0, 0, 0], Actions.CopyTtlIn)
    ensures Struct([0, 16, 0, 8, 0, 0, 0, 0], Actions.DecMplsTtl)
    ensures Struct([0, 18, 0, 8, 0, 0, 0, 0], Actions.PopVlan)
    ensures Struct([0, 24, 0, 8, 0, 0, 0, 0], Actions.DecNwTtl)
    ensures Struct([0, 27, 0, 8, 0, 0, 0, 0], Actions.PopPbb)
  {
  }

  lemma TtlActions(ttl: Byte)
    ensures Struct([0, 15, 0, 8, ttl, 0, 0, 0], Actions.SetMplsTtl(ttl))
    ensures Struct([0, 23, 0, 8, ttl, 0, 0, 0], Actions.SetNwTtl(ttl))
  {
  }

  lemma EthertypeActions(hi: Byte, lo: Byte)
    ensures Struct([0, 17, 0, 8, hi, lo, 0, 0], Actions.PushVlan(0x100 * hi + lo))
    ensures Struct([0, 19, 0, 8, hi, lo, 0, 0], Actions.PushMpls(0x100 * hi + lo))
    ensures Struct([0, 26, 0, 8, hi, lo, 0, 0], Actions.PushPbb(0x100 * hi + lo))
    ensures Struct([0, 20, 0, 8, hi, lo, 0, 0], Actions.PopMpls(0x100 * hi + lo))
  {
  }

  lemma NumberActions()
    ensures Struct([0, 0, 0, 16, 0x11, 0x12, 0x13, 0x14, 0x21, 0x22, 0, 0, 0, 0, 0, 0], Actions.Output(0x1112_1314, 0x2122))
    ensures Struct([0, 21, 0, 8, 0x11, 0x12, 0x13, 0x14], Actions.SetQueue(0x1112_1314))
    ensures Struct([0, 22, 0, 8, 0x11, 0x12, 0x13, 0x14], Actions.Group(0x1112_1314))
  {
  }

  /** The Ethernet type 0x0800 as a little-endian host holds it. */
  lemma SetEthertype()
    ensures var a := Actions.SetField(0x8000_0A02, [0x00, 0x08]);
            && Struct([0, 25, 0, 16, 0x80, 0x00, 0x0A, 0x02, 0x08, 0x00, 0, 0, 0, 0, 0, 0], a)
            && Actions.Known(a)
            && Actions.ValueAt([0, 25, 0, 16, 0x80, 0x00, 0x0A, 0x02, 0x08, 0x00, 0, 0, 0, 0, 0, 0], 0, a)
  {
    var s: seq<Byte> := [0, 25, 0, 16, 0x80, 0x00, 0x0A, 0x02, 0x08, 0x00, 0, 0, 0, 0, 0, 0];
    var a := Actions.SetField(0x8000_0A02, [0x00, 0x08]);
    assert Actions.OxmLength(a.header) == 2;
    assert s[8..10] == [0x08, 0x00] == Actions.FieldBytes(a.header, a.value);
  }

  // -------------------------------------------------------------- messages

  /** The bytes are the wire form of m, and read as m. */
  predicate Reads(s: seq<Byte>, m: Msg, xid: U32) {
    && OnWire(s, m, xid)
    && |s| >= 8 && Covered(s, |s|) && Mapped(s, |s|)
    && Decode(s, |s|) == Parsed(m, xid, 0)
  }

  lemma EmptyMessages(t: Byte)
    requires t == 0 || t == 5 || t == 7 || t == 20 || t == 21 || t == 26
    ensures Reads([4, t, 0, 8, 1, 2, 3, 4], Empty(t), 0x0102_0304)
  {
    RoundTrip([4, t, 0, 8, 1, 2, 3, 4], Empty(t), 0x0102_0304);
  }

  lemma ErrorMessage()
    ensures Reads([4, 1, 0, 14, 1, 2, 3, 4, 0x11, 0x12, 0x21, 0x22, 7, 8], Error(0x1112, 0x2122, [7, 8]), 0x0102_0304)
  {
    var s: seq<Byte> := [4, 1, 0, 14, 1, 2, 3, 4, 0x11, 0x12, 0x21, 0x22, 7, 8];
    assert s[12..] == [7, 8];
    RoundTrip(s, Error(0x1112, 0x2122, [7, 8]), 0x0102_0304);
  }

  lemma EchoMessages(t: Byte)
    requires t == 2 || t == 3
    ensures Reads([4, t, 0, 10, 1, 2, 3, 4, 7, 8], Echo(t, [7, 8]), 0x0102_0304)
  {
    var s: seq<Byte> := [4, t, 0, 10, 1, 2, 3, 4, 7, 8];
    assert s[8..] == [7, 8];
    RoundTrip(s, Echo(t, [7, 8]), 0x0102_0304);
  }

  lemma RoleMessages(t: Byte)
    requires t == 24 || t == 25
    ensures Reads([4, t, 0, 24, 1, 2, 3, 4] + [0x11, 0x12, 0x13, 0x14, 0, 0, 0, 0] + [0x21, 0x22, 0x23, 0x24, 0x25, 0x26, 0x27, 0x28],
                  Role(t, 0x1112_1314, 0x2122_2324_2526_2728), 0x0102_0304)
  {
    var s: seq<Byte> := [4, t, 0, 24, 1, 2, 3, 4] + [0x11, 0x12, 0x13, 0x14, 0, 0, 0, 0] + [0x21, 0x22, 0x23, 0x24, 0x25, 0x26, 0x27, 0x28];
    RoundTrip(s, Role(t, 0x1112_1314, 0x2122_2324_2526_2728), 0x0102_0304);
  }

  lemma FeaturesMessage()
    ensures Reads([4, 6, 0, 32, 1, 2, 3, 4] + [0x21, 0x22, 0x23, 0x24, 0x25, 0x26, 0x27, 0x28] + [0x11, 0x12, 0x13, 0x14, 0x31, 0x32, 0, 0] + [0x41, 0x42, 0x43, 0x44, 0, 0, 0, 0],
                  Features(0x2122_2324_2526_2728, 0x1112_1314, 0x31, 0x32, 0x4142_4344), 0x0102_0304)
  {
    var s: seq<Byte> := [4, 6, 0, 32, 1, 2, 3, 4] + [0x21, 0x22, 0x23, 0x24, 0x25, 0x26, 0x27, 0x28] + [0x11, 0x12, 0x13, 0x14, 0x31, 0x32, 0, 0] + [0x41, 0x42, 0x43, 0x44, 0, 0, 0, 0];
    RoundTrip(s, Features(0x2122_2324_2526_2728, 0x1112_1314, 0x31, 0x32, 0x4142_4344), 0x0102_0304);
  }

  lemma ConfigMessages(t: Byte)
    requires t == 8 || t == 9
    ensures Reads([4, t, 0, 12, 1, 2, 3, 4, 0x11, 0x12, 0x21, 0x22], Config(t, 0x1112, 0x2122), 0x0102_0304)
  {
    RoundTrip([4, t, 0, 12, 1, 2, 3, 4, 0x11, 0x12, 0x21, 0x22], Config(t, 0x1112, 0x2122), 0x0102_0304);
  }

  /** The masks are in the byte order of the host. */
  lemma AsyncMessages(t: Byte)
    requires t == 27 || t == 28
    ensures Reads([4, t, 0, 32, 1, 2, 3, 4] + [0x14, 0x13, 0x12, 0x11, 0x24, 0x23, 0x22, 0x21] + [0x34, 0x33, 0x32, 0x31, 0x44, 0x43, 0x42, 0x41] + [0x54, 0x53, 0x52, 0x51, 0x64, 0x63, 0x62, 0x61],
                  Async(t, [0x1112_1314, 0x2122_2324], [0x3132_3334, 0x4142_4344], [0x5152_5354, 0x6162_6364]), 0x0102_0304)
  {
    var s: seq<Byte> := [4, t, 0, 32, 1, 2, 3, 4] + [0x14, 0x13, 0x12, 0x11, 0x24, 0x23, 0x22, 0x21] + [0x34, 0x33, 0x32, 0x31, 0x44, 0x43, 0x42, 0x41] + [0x54, 0x53, 0x52, 0x51, 0x64, 0x63, 0x62, 0x61];
    RoundTrip(s, Async(t, [0x1112_1314, 0x2122_2324], [0x3132_3334, 0x4142_4344], [0x5152_5354, 0x6162_6364]), 0x0102_0304);
  }

  lemma PortModMessage()
    ensures Reads([4, 16, 0, 40, 1, 2, 3, 4] + [0x11, 0x12, 0x13, 0x14, 0, 0, 0, 0] + [0x21, 0x22, 0x23, 0x24, 0x25, 0x26, 0, 0] + [0x31, 0x32, 0x33, 0x34, 0x41, 0x42, 0x43, 0x44] + [0x51, 0x52, 0x53, 0x54, 0, 0, 0, 0],
                  PortMod(0x1112_1314, [0x21, 0x22, 0x23, 0x24, 0x25, 0x26], 0x3132_3334, 0x4142_4344, 0x5152_5354), 0x0102_0304)
  {
    var s: seq<Byte> := [4, 16, 0, 40, 1, 2, 3, 4] + [0x11, 0x12, 0x13, 0x14, 0, 0, 0, 0] + [0x21, 0x22, 0x23, 0x24, 0x25, 0x26, 0, 0] + [0x31, 0x32, 0x33, 0x34, 0x41, 0x42, 0x43, 0x44] + [0x51, 0x52, 0x53, 0x54, 0, 0, 0, 0];
    assert s[16..22] == [0x21, 0x22, 0x23, 0x24, 0x25, 0x26];
    RoundTrip(s, PortMod(0x1112_1314, [0x21, 0x22, 0x23, 0x24, 0x25, 0x26], 0x3132_3334, 0x4142_4344, 0x5152_5354), 0x0102_0304);
  }

  lemma TableModMessage()
    ensures Reads([4, 17, 0, 16, 1, 2, 3, 4, 0x31, 0, 0, 0, 0x11, 0x12, 0x13, 0x14], TableMod(0x31, 0x1112_1314), 0x0102_0304)
  {
    RoundTrip([4, 17, 0, 16, 1, 2, 3, 4, 0x31, 0, 0, 0, 0x11, 0x12, 0x13, 0x14], TableMod(0x31, 0x1112_1314), 0x0102_0304);
  }

  lemma QueueConfigMessage()
    ensures Reads([4, 22, 0, 16, 1, 2, 3, 4, 0x11, 0x12, 0x13, 0x14, 0, 0, 0, 0], QueueConfigRequest(0x1112_1314), 0x0102_0304)
  {
    RoundTrip([4, 22, 0, 16, 1, 2, 3, 4, 0x11, 0x12, 0x13, 0x14, 0, 0, 0, 0], QueueConfigRequest(0x1112_1314), 0x0102_0304);
  }

  // ------------------------------------------------------------- multipart

  lemma EmptyRequests(t: Byte)
    requires t == 0 || t == 3 || t == 7 || t == 8 || t == 13
    ensures Reads([4, 18, 0, 16, 1, 2, 3, 4, 0, t, 0x31, 0x32, 0, 0, 0, 0], MultipartRequest(t, 0x3132, NoBody), 0x0102_0304)
  {
    RoundTrip([4, 18, 0, 16, 1, 2, 3, 4, 0, t, 0x31, 0x32, 0, 0, 0, 0], MultipartRequest(t, 0x3132, NoBody), 0x0102_0304);
  }

  /** The meter-features request is packed as type 11 and refused. */
  lemma MeterFeaturesRequest()
    ensures var s: seq<Byte> := [4, 18, 0, 16, 1, 2, 3, 4, 0, 11, 0x31, 0x32, 0, 0, 0, 0];
            && OnWire(s, MultipartRequest(11, 0x3132, NoBody), 0x0102_0304)
            && Decode(s, 16) == Err(1, 2)
  {
  }

  lemma PortRequestMessage()
    ensures Reads([4, 18, 0, 24, 1, 2, 3, 4] + [0, 4, 0x31, 0x32, 0, 0, 0, 0] + [0x11, 0x12, 0x13, 0x14, 0, 0, 0, 0],
                  MultipartRequest(4, 0x3132, PortBody(0x1112_1314)), 0x0102_0304)
  {
    var s: seq<Byte> := [4, 18, 0, 24, 1, 2, 3, 4] + [0, 4, 0x31, 0x32, 0, 0, 0, 0] + [0x11, 0x12, 0x13, 0x14, 0, 0, 0, 0];
    RoundTrip(s, MultipartRequest(4, 0x3132, PortBody(0x1112_1314)), 0x0102_0304);
  }

  lemma QueueRequestMessage()
    ensures Reads([4, 18, 0, 24, 1, 2, 3, 4] + [0, 5, 0x31, 0x32, 0, 0, 0, 0] + [0x11, 0x12, 0x13, 0x14, 0x21, 0x22, 0x23, 0x24],
                  MultipartRequest(5, 0x3132, QueueBody(0x1112_1314, 0x2122_2324)), 0x0102_0304)
  {
    var s: seq<Byte> := [4, 18, 0, 24, 1, 2, 3, 4] + [0, 5, 0x31, 0x32, 0, 0, 0, 0] + [0x11, 0x12, 0x13, 0x14, 0x21, 0x22, 0x23, 0x24];
    RoundTrip(s, MultipartRequest(5, 0x3132, QueueBody(0x1112_1314, 0x2122_2324)), 0x0102_0304);
  }

  lemma GroupRequestMessage()
    ensures Reads([4, 18, 0, 24, 1, 2, 3, 4] + [0, 6, 0x31, 0x32, 0, 0, 0, 0] + [0x11, 0x12, 0x13, 0x14, 0, 0, 0, 0],
                  MultipartRequest(6, 0x3132, GroupBody(0x1112_1314)), 0x0102_0304)
  {
    var s: seq<Byte> := [4, 18, 0, 24, 1, 2, 3, 4] + [0, 6, 0x31, 0x32, 0, 0, 0, 0] + [0x11, 0x12, 0x13, 0x14, 0, 0, 0, 0];
    RoundTrip(s, MultipartRequest(6, 0x3132, GroupBody(0x1112_1314)), 0x0102_0304);
  }

  lemma MeterRequestMessages(t: Byte)
    requires t == 9 || t == 10
    ensures Reads([4, 18, 0, 24, 1, 2, 3, 4] + [0, t, 0x31, 0x32, 0, 0, 0, 0] + [0x11, 0x12, 0x13, 0x14, 0, 0, 0, 0],
                  MultipartRequest(t, 0x3132, MeterBody(0x1112_1314)), 0x0102_0304)
  {
    var s: seq<Byte> := [4, 18, 0, 24, 1, 2, 3, 4] + [0, t, 0x31, 0x32, 0, 0, 0, 0] + [0x11, 0x12, 0x13, 0x14, 0, 0, 0, 0];
    RoundTrip(s, MultipartRequest(t, 0x3132, MeterBody(0x1112_1314)), 0x0102_0304);
  }

  lemma AggregateReply()
    ensures Reads([4, 19, 0, 40, 1, 2, 3, 4] + [0, 2, 0x31, 0x32, 0, 0, 0, 0] + [0x11, 0x12, 0x13, 0x14, 0x15, 0x16, 0x17, 0x18] + [0x21, 0x22, 0x23, 0x24, 0x25, 0x26, 0x27, 0x28] + [0x41, 0x42, 0x43, 0x44, 0, 0, 0, 0],
                  MultipartReply(2, 0x3132, Aggregate(0x1112_1314_1516_1718, 0x2122_2324_2526_2728, 0x4142_4344)), 0x0102_0304)
  {
    var s: seq<Byte> := [4, 19, 0, 40, 1, 2, 3, 4] + [0, 2, 0x31, 0x32, 0, 0, 0, 0] + [0x11, 0x12, 0x13, 0x14, 0x15, 0x16, 0x17, 0x18] + [0x21, 0x22, 0x23, 0x24, 0x25, 0x26, 0x27, 0x28] + [0x41, 0x42, 0x43, 0x44, 0, 0, 0, 0];
    RoundTrip(s, MultipartReply(2, 0x3132, Aggregate(0x1112_1314_1516_1718, 0x2122_2324_2526_2728, 0x4142_4344)), 0x0102_0304);
  }

  lemma FourWords(s: seq<Byte>, o: nat, words: seq<U32>)
    requires |words| == 4 && o + 16 <= |s|
    requires Get32(s, o) == words[0] && Get32(s, o + 4) == words[1]
    requires Get32(s, o + 8) == words[2] && Get32(s, o + 12) == words[3]
    ensures forall i {:trigger words[i]} | 0 <= i < 4 :: Get32(s, o + 4 * i) == words[i]
  {
  }

  lemma GroupFeaturesReply()
    ensures Reads([4, 19, 0, 56, 1, 2, 3, 4] + [0, 8, 0x31, 0x32, 0, 0, 0, 0] + [0x11, 0x12, 0x13, 0x14, 0x21, 0x22, 0x23, 0x24]
                  + [0, 0, 0, 1, 0, 0, 0, 2] + [0, 0, 0, 3, 0, 0, 0, 4] + [0, 0, 0, 5, 0, 0, 0, 6] + [0, 0, 0, 7, 0, 0, 0, 8],
                  MultipartReply(8, 0x3132, GroupFeatures(0x1112_1314, 0x2122_2324, [1, 2, 3, 4], [5, 6, 7, 8])), 0x0102_0304)
  {
    var s: seq<Byte> :=
      [4, 19, 0, 56, 1, 2, 3, 4] + [0, 8, 0x31, 0x32, 0, 0, 0, 0] + [0x11, 0x12, 0x13, 0x14, 0x21, 0x22, 0x23, 0x24]
      + [0, 0, 0, 1, 0, 0, 0, 2] + [0, 0, 0, 3, 0, 0, 0, 4] + [0, 0, 0, 5, 0, 0, 0, 6] + [0, 0, 0, 7, 0, 0, 0, 8];
    var r := GroupFeatures(0x1112_1314, 0x2122_2324, [1, 2, 3, 4], [5, 6, 7, 8]);
    FourWords(s, 24, [1, 2, 3, 4]);
    FourWords(s, 40, [5, 6, 7, 8]);
    assert ReplyAt(s, r);
    RoundTrip(s, MultipartReply(8, 0x3132, r), 0x0102_0304);
  }

  // ------------------------------------------------------------ packet-out

  lemma FixedSample(h: seq<Byte>, m: PacketOut.Packet)
    requires h == [0x11, 0x12, 0x13, 0x14, 0x21, 0x22, 0x23, 0x24] + [0, 8, 0, 0, 0, 0, 0, 0]
    requires m.bufferId == 0x1112_1314 && m.inPort == 0x2122_2324 && m.actions == [Actions.PopVlan]
    ensures Actions.TotalLen(m.actions) == 8 && PacketOut.FixedFields(m) == h
    ensures PacketOut.AllKnown(m.actions) && PacketOut.Overlay(h, m.actions) == h
  {
    assert m.actions[..0] == [];
    PacketOut.FixedOnly(h, m);
  }

  lemma ActionSample(s: seq<Byte>, action: seq<Byte>, o: nat)
    requires action == [0, 18, 0, 8, 0, 0, 0, 0] && o + 8 <= |s| && s[o..o + 8] == action
    ensures Actions.ActionAt(s, o, Actions.PopVlan)
  {
    var p := s[o..o + 8];
    assert forall i | 0 <= i < 8 :: p[i] == s[o + i];
  }

  /** A packet-out of one action and two bytes of payload: the header, sixteen
      bytes of fixed fields, the action, the payload. */
  lemma PacketOutMessage(head: seq<Byte>, fixed_: seq<Byte>, action: seq<Byte>, data: seq<Byte>)
    requires head == [4, 13, 0, 34, 1, 2, 3, 4]
    requires fixed_ == [0x11, 0x12, 0x13, 0x14, 0x21, 0x22, 0x23, 0x24] + [0, 8, 0, 0, 0, 0, 0, 0]
    requires action == [0, 18, 0, 8, 0, 0, 0, 0] && data == [7, 8]
    ensures PacketOut.PacketAt(head + fixed_ + action + data,
                               PacketOut.Packet(0x1112_1314, 0x2122_2324, [Actions.PopVlan], [7, 8], 0x0102_0304))
  {
    var s := head + fixed_ + action + data;
    var m := PacketOut.Packet(0x1112_1314, 0x2122_2324, [Actions.PopVlan], [7, 8], 0x0102_0304);
    assert m.actions[..0] == [] && m.actions[..1] == m.actions;
    assert s[8..24] == fixed_ && s[24..32] == action && s[32..] == data;
    FixedSample(fixed_, m);
    ActionSample(s, action, 24);
    assert PacketOut.ActionOffset(m.actions, 0) == 24 && PacketOut.ActionOffset(m.actions, 1) == 32;
    assert Get16(s, 2) == 34 && Get32(s, 4) == 0x0102_0304;
  }
}
