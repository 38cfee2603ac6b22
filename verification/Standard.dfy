/** An independent reading of the standard: every message as a table of byte
    positions and literal numbers (sections A.1, A.3 and A.4 of the OpenFlow
    Switch Specification 1.3.0), and what the parser answers to every buffer. */
module Standard {
  import opened Wire
  import opened Messages

  /** The n bytes from o as one number, most significant first. */
  function Be(s: seq<Byte>, o: nat, n: nat): nat
    requires o + n <= |s|
  {
    if n == 0 then 0 else 0x100 * Be(s, o, n - 1) + s[o + n - 1]
  }

  /** The same, least significant first. */
  function Le(s: seq<Byte>, o: nat, n: nat): nat
    requires o + n <= |s|
    decreases n
  {
    if n == 0 then 0 else s[o] + 0x100 * Le(s, o + 1, n - 1)
  }

  lemma Be2(s: seq<Byte>, o: nat)
    requires o + 2 <= |s|
    ensures Be(s, o, 2) == Get16(s, o)
  {
    assert Be(s, o, 1) == s[o];
  }

  lemma Be4(s: seq<Byte>, o: nat)
    requires o + 4 <= |s|
    ensures Be(s, o, 4) == Get32(s, o)
  {
    Be2(s, o);
    assert Be(s, o, 3) == 0x100 * Be(s, o, 2) + s[o + 2];
  }

  lemma Be8(s: seq<Byte>, o: nat)
    requires o + 8 <= |s|
    ensures Be(s, o, 8) == Get64(s, o)
  {
    Be4(s, o);
    assert Be(s, o, 5) == 0x100 * Be(s, o, 4) + s[o + 4];
    assert Be(s, o, 6) == 0x100 * Be(s, o, 5) + s[o + 5];
    assert Be(s, o, 7) == 0x100 * Be(s, o, 6) + s[o + 6];
  }

  lemma Le4(s: seq<Byte>, o: nat)
    requires o + 4 <= |s|
    ensures Le(s, o, 4) == GetHost32(s, o)
  {
    assert Le(s, o + 2, 2) == s[o + 2] + 0x100 * Le(s, o + 3, 1);
    assert Le(s, o + 1, 3) == s[o + 1] + 0x100 * Le(s, o + 2, 2);
  }

  lemma {:induction false} BeZero(s: seq<Byte>, o: nat, n: nat)
    requires o + n <= |s|
    ensures Be(s, o, n) == 0 <==> Zeros(s, o, o + n)
  {
    if n > 0 { BeZero(s, o, n - 1); }
  }

  /** All of it, at every position. */
  lemma Positions(s: seq<Byte>)
    ensures forall o: nat {:trigger Be(s, o, 2)} {:trigger Get16(s, o)} | o + 2 <= |s| :: Be(s, o, 2) == Get16(s, o)
    ensures forall o: nat {:trigger Be(s, o, 4)} {:trigger Get32(s, o)} | o + 4 <= |s| :: Be(s, o, 4) == Get32(s, o)
    ensures forall o: nat {:trigger Be(s, o, 8)} {:trigger Get64(s, o)} | o + 8 <= |s| :: Be(s, o, 8) == Get64(s, o)
    ensures forall o: nat {:trigger Le(s, o, 4)} {:trigger GetHost32(s, o)} | o + 4 <= |s| :: Le(s, o, 4) == GetHost32(s, o)
  {
    forall o: nat | o + 2 <= |s|
      ensures Be(s, o, 2) == Get16(s, o)
    {
      Be2(s, o);
    }
    forall o: nat | o + 4 <= |s|
      ensures Be(s, o, 4) == Get32(s, o)
      ensures Le(s, o, 4) == GetHost32(s, o)
    {
      Be4(s, o);
      Le4(s, o);
    }
    forall o: nat | o + 8 <= |s|
      ensures Be(s, o, 8) == Get64(s, o)
    {
      Be8(s, o);
    }
  }

  // ---------------------------------------------------------------- tables

  /** ofp_header: version 4, type, length modulo 2^16, transaction id. */
  predicate Header(s: seq<Byte>, xid: U32)
    requires |s| >= 8
  {
    s[0] == 4 && Be(s, 2, 2) == |s| % 0x1_0000 && Be(s, 4, 4) == xid
  }

  predicate Request(s: seq<Byte>, t: U16, b: Body)
    requires |s| >= 16
  {
    match b
    case NoBody => |s| == 16 && (t == 0 || t == 3 || t == 7 || t == 8 || t == 11 || t == 13)
    case PortBody(port) => |s| == 24 && t == 4 && Be(s, 16, 4) == port
    case QueueBody(port, q) => |s| == 24 && t == 5 && Be(s, 16, 4) == port && Be(s, 20, 4) == q
    case GroupBody(id) => |s| == 24 && t == 6 && Be(s, 16, 4) == id
    case MeterBody(id) => |s| == 24 && (t == 9 || t == 10) && Be(s, 16, 4) == id
  }

  predicate ReplyTable(s: seq<Byte>, t: U16, r: Reply)
    requires |s| >= 16
  {
    match r
    case Aggregate(packets, bytes, flows) =>
      |s| == 40 && t == 2 && Be(s, 16, 8) == packets && Be(s, 24, 8) == bytes && Be(s, 32, 4) == flows
    case GroupFeatures(types, cap, maxGroups, actions) =>
      && |s| == 56 && t == 8 && Be(s, 16, 4) == types && Be(s, 20, 4) == cap
      && maxGroups == [Be(s, 24, 4), Be(s, 28, 4), Be(s, 32, 4), Be(s, 36, 4)]
      && actions == [Be(s, 40, 4), Be(s, 44, 4), Be(s, 48, 4), Be(s, 52, 4)]
  }

  /** Type, size and fields of each message.  The masks of the asynchronous
      configuration are in the order of a little-endian host. */
  predicate Table(s: seq<Byte>, m: Msg)
    requires |s| >= 8
  {
    match m
    case Empty(t) => s[1] == t && |s| == 8 && (t == 0 || t == 5 || t == 7 || t == 20 || t == 21 || t == 26)
    case Error(etype, code, data) =>
      s[1] == 1 && |s| == 12 + |data| && Be(s, 8, 2) == etype && Be(s, 10, 2) == code && s[12..] == data
    case Echo(t, data) => s[1] == t && (t == 2 || t == 3) && |s| == 8 + |data| && s[8..] == data
    case Role(t, role, gen) => s[1] == t && (t == 24 || t == 25) && |s| == 24 && Be(s, 8, 4) == role && Be(s, 16, 8) == gen
    case Features(dpid, buffers, tables, aux, cap) =>
      && s[1] == 6 && |s| == 32
      && Be(s, 8, 8) == dpid && Be(s, 16, 4) == buffers && s[20] == tables && s[21] == aux && Be(s, 24, 4) == cap
    case Config(t, flags, miss) =>
      s[1] == t && (t == 8 || t == 9) && |s| == 12 && Be(s, 8, 2) == flags && Be(s, 10, 2) == miss
    case Async(t, packetIn, portStatus, flowRemoved) =>
      && s[1] == t && (t == 27 || t == 28) && |s| == 32
      && packetIn == [Le(s, 8, 4), Le(s, 12, 4)] && portStatus == [Le(s, 16, 4), Le(s, 20, 4)]
      && flowRemoved == [Le(s, 24, 4), Le(s, 28, 4)]
    case PortMod(port, hw, config, mask, advertise) =>
      && s[1] == 16 && |s| == 40
      && Be(s, 8, 4) == port && s[16..22] == hw
      && Be(s, 24, 4) == config && Be(s, 28, 4) == mask && Be(s, 32, 4) == advertise
    case TableMod(id, config) => s[1] == 17 && |s| == 16 && s[8] == id && Be(s, 12, 4) == config
    case QueueConfigRequest(port) => s[1] == 22 && |s| == 16 && Be(s, 8, 4) == port
    case MultipartRequest(t, flags, b) =>
      s[1] == 18 && |s| >= 16 && Be(s, 8, 2) == t && Be(s, 10, 2) == flags && Request(s, t, b)
    case MultipartReply(t, flags, r) =>
      s[1] == 19 && |s| >= 16 && Be(s, 8, 2) == t && Be(s, 10, 2) == flags && ReplyTable(s, t, r)
  }

  /** The positions between the fields are zero. */
  predicate Padding(s: seq<Byte>, m: Msg)
    requires |s| >= 8 && Table(s, m)
  {
    match m
    case Role(_, _, _) => Be(s, 12, 4) == 0
    case Features(_, _, _, _, _) => Be(s, 22, 2) == 0 && Be(s, 28, 4) == 0
    case PortMod(_, _, _, _, _) => Be(s, 12, 4) == 0 && Be(s, 22, 2) == 0 && Be(s, 36, 4) == 0
    case TableMod(_, _) => Be(s, 9, 3) == 0
    case QueueConfigRequest(_) => Be(s, 12, 4) == 0
    case MultipartRequest(_, _, b) => Be(s, 12, 4) == 0 && (b == NoBody || b.QueueBody? || Be(s, 20, 4) == 0)
    case MultipartReply(_, _, r) => Be(s, 12, 4) == 0 && (r.GroupFeatures? || Be(s, 36, 4) == 0)
    case _ => true
  }

  lemma ReplyIff(s: seq<Byte>, t: U16, r: Reply)
    requires |s| >= 16
    ensures ReplyTable(s, t, r) <==> ReplyFits(t, r) && |s| == (if r.Aggregate? then 40 else 56) && ReplyAt(s, r)
  {
    Positions(s);
    if r.GroupFeatures? && |r.maxGroups| == 4 && |r.actions| == 4 {
      var mg, ac := r.maxGroups, r.actions;
      assert mg == [mg[0], mg[1], mg[2], mg[3]];
      assert ac == [ac[0], ac[1], ac[2], ac[3]];
    }
  }

  lemma TableIff(s: seq<Byte>, m: Msg)
    requires |s| >= 8
    ensures Table(s, m) <==> WellFormed(m) && s[1] == TypeOf(m) && |s| == SizeOf(m) && FieldsAt(s, m)
  {
    Positions(s);
    if m.MultipartReply? && |s| >= 16 {
      ReplyIff(s, m.rtype, m.reply);
    }
  }

  lemma PaddingIff(s: seq<Byte>, m: Msg)
    requires |s| >= 8 && Table(s, m) && |s| == SizeOf(m)
    ensures Padding(s, m) <==> PadsZero(s, m)
  {
    forall o: nat, n: nat {:trigger Be(s, o, n)} | o + n <= |s|
      ensures Be(s, o, n) == 0 <==> Zeros(s, o, o + n)
    {
      BeZero(s, o, n);
    }
  }

  /** The wire form of this model is the one of the standard. */
  lemma OnWireIff(s: seq<Byte>, m: Msg, xid: U32)
    ensures OnWire(s, m, xid) <==> |s| >= 8 && Header(s, xid) && Table(s, m) && Padding(s, m)
  {
    if |s| >= 8 {
      TableIff(s, m);
      Be2(s, 2);
      Be4(s, 4);
      if Table(s, m) { PaddingIff(s, m); }
    }
  }

  // --------------------------------------------------------------- answers

  predicate RequestTooShort(t: nat, n: nat) {
    (t == 4 || t == 5 || t == 6 || t == 9 || t == 10) && n < 24
  }

  predicate ReplyTooShort(t: nat, n: nat) {
    (t == 2 && n < 40) || (t == 8 && n < 56)
  }

  /** A message that ends before its fixed part does. */
  predicate TooShort(s: seq<Byte>, n: nat)
    requires 8 <= n <= |s|
  {
    var t := s[1];
    || (t == 1 && n < 12) || ((t == 8 || t == 9) && n < 12) || ((t == 24 || t == 25) && n < 24)
    || ((t == 27 || t == 28) && n < 32) || (t == 16 && n < 40) || (t == 17 && n < 16) || ((t == 18 || t == 19) && n < 16)
    || (t == 18 && n >= 16 && RequestTooShort(Be(s, 8, 2), n)) || (t == 19 && n >= 16 && ReplyTooShort(Be(s, 8, 2), n))
  }

  /** A multipart request or reply of a type without a reader. */
  predicate UnknownMultipart(s: seq<Byte>, n: nat)
    requires 8 <= n <= |s|
  {
    n >= 16 && var t := Be(s, 8, 2);
    || (s[1] == 18 && t != 0 && t != 3 && t != 4 && t != 5 && t != 6 && t != 7 && t != 8 && t != 9 && t != 10 && t != 13)
    || (s[1] == 19 && t != 2 && t != 8)
  }

  /** The port of a port or queue statistics request: a real port, or any. */
  predicate BadStatsPort(s: seq<Byte>, n: nat)
    requires 8 <= n <= |s|
  {
    && s[1] == 18 && n >= 24 && (Be(s, 8, 2) == 4 || Be(s, 8, 2) == 5)
    && (Be(s, 16, 4) == 0 || 0xFFFF_FF00 < Be(s, 16, 4) < 0xFFFF_FFFF)
  }

  /** The answer to a message whose header is in order. */
  predicate BodyAnswer(s: seq<Byte>, n: nat, r: Parsed)
    requires 8 <= n <= |s| && Covered(s, n) && Mapped(s, n)
  {
    if TooShort(s, n) then r == if s[1] == 1 then ErrPlain else Err(1, 6)
    else if s[1] == 22 && (Be(s, 8, 4) == 0 || Be(s, 8, 4) > 0xFFFF_FF00) then r == Err(9, 0)
    else if UnknownMultipart(s, n) then r == Err(1, 2)
    else if BadStatsPort(s, n) then r == Err(1, 6)
    else if s[1] >= 30 then r == Err(1, 10)
    else r.Parsed? && r.xid == Be(s, 4, 4)
  }

  /** The answer to the first n bytes of s: a pair of error type and code, the
      plain error, or the message that stands there. */
  predicate Answer(s: seq<Byte>, n: nat, r: Parsed)
    requires n <= |s| && (8 <= n ==> Covered(s, n) && Mapped(s, n))
  {
    if n < 8 then r == Err(1, 6)
    else if s[0] != 4 then r == Err(0, 0)
    else if Be(s, 2, 2) != n then r == Err(1, 6)
    else
      && BodyAnswer(s, n, r)
      && (r.Parsed? && !Short(s, n) ==> r.rest <= n - 8 && Table(s[..n - r.rest], r.msg))
  }

  lemma ReadFixed(s: seq<Byte>, n: nat, xid: U32)
    requires 8 <= n <= |s| && Covered(s, n) && Mapped(s, n) && DecodeBody(s, n, xid).Parsed? && !Short(s, n)
    requires s[1] != MULTIPART_REQUEST && s[1] != MULTIPART_REPLY
    ensures var r := DecodeBody(s, n, xid);
            && WellFormed(r.msg) && SizeOf(r.msg) + r.rest == n && TypeOf(r.msg) == s[1]
            && FieldsAt(s[..SizeOf(r.msg)], r.msg)
  {
    var m := DecodeBody(s, n, xid).msg;
    var p := s[..SizeOf(m)];
    assert forall i | 0 <= i < |p| :: p[i] == s[i];
    match m
    case Error(_, _, _) => assert p[12..] == s[12..n];
    case Echo(_, _) => assert p[8..] == s[8..n];
    case PortMod(_, _, _, _, _) => assert p[16..22] == s[16..22];
    case _ =>
  }

  lemma ReadReply(s: seq<Byte>, n: nat, xid: U32)
    requires 16 <= n <= |s| && ReplyCovered(Get16(s, 8)) && DecodeReply(s, n, xid).Parsed?
    ensures var r := DecodeReply(s, n, xid);
            && WellFormed(r.msg) && SizeOf(r.msg) + r.rest == n && r.msg.MultipartReply?
            && FieldsAt(s[..SizeOf(r.msg)], r.msg)
  {
    var m := DecodeReply(s, n, xid).msg;
    var p := s[..SizeOf(m)];
    assert forall i | 0 <= i < |p| :: p[i] == s[i];
  }

  lemma ReadFields(s: seq<Byte>, n: nat, xid: U32)
    requires 8 <= n <= |s| && Covered(s, n) && Mapped(s, n) && DecodeBody(s, n, xid).Parsed? && !Short(s, n)
    ensures var r := DecodeBody(s, n, xid);
            r.rest <= n - 8 && Table(s[..n - r.rest], r.msg)
  {
    var r := DecodeBody(s, n, xid);
    if s[1] == MULTIPART_REQUEST {
      RequestAccepted(s, n, xid);
    } else if s[1] == MULTIPART_REPLY {
      ReadReply(s, n, xid);
    } else {
      ReadFixed(s, n, xid);
    }
    TableIff(s[..SizeOf(r.msg)], r.msg);
  }

  lemma AnswerToRequest(s: seq<Byte>, n: nat, xid: U32)
    requires 16 <= n <= |s| && s[1] == 18 && RequestCovered(Get16(s, 8))
    ensures var r := DecodeRequest(s, n, xid);
            if RequestTooShort(Be(s, 8, 2), n) then r == Err(1, 6)
            else if UnknownMultipart(s, n) then r == Err(1, 2)
            else if BadStatsPort(s, n) then r == Err(1, 6)
            else r.Parsed? && r.xid == xid
  {
    Be2(s, 8);
    if n >= 24 { Be4(s, 16); }
  }

  lemma AnswerToReply(s: seq<Byte>, n: nat, xid: U32)
    requires 16 <= n <= |s| && s[1] == 19 && ReplyCovered(Get16(s, 8))
    ensures var r := DecodeReply(s, n, xid);
            if ReplyTooShort(Be(s, 8, 2), n) then r == Err(1, 6)
            else if UnknownMultipart(s, n) then r == Err(1, 2)
            else r.Parsed? && r.xid == xid
  {
    Be2(s, 8);
  }

  lemma AnswerToFixed(s: seq<Byte>, n: nat)
    requires 8 <= n <= |s| && Covered(s, n) && Mapped(s, n) && s[1] != 18 && s[1] != 19
    ensures BodyAnswer(s, n, DecodeBody(s, n, Get32(s, 4)))
  {
    Be4(s, 4);
    if s[1] == 22 { Be4(s, 8); }
  }

  lemma AnswerToBody(s: seq<Byte>, n: nat)
    requires 8 <= n <= |s| && Covered(s, n) && Mapped(s, n)
    ensures BodyAnswer(s, n, DecodeBody(s, n, Get32(s, 4)))
  {
    if s[1] != 18 && s[1] != 19 {
      AnswerToFixed(s, n);
    } else if n >= 16 {
      Be4(s, 4);
      if s[1] == 18 { AnswerToRequest(s, n, Get32(s, 4)); } else { AnswerToReply(s, n, Get32(s, 4)); }
    }
  }

  /** Which buffers are refused and how, and what is read from the others. */
  lemma AnswerIs(s: seq<Byte>, n: nat)
    requires n <= |s| && (8 <= n ==> Covered(s, n) && Mapped(s, n))
    ensures Answer(s, n, Decode(s, n))
  {
    if n >= 8 {
      Be2(s, 2);
      AnswerToBody(s, n);
      if HeaderOk(s, n) && Decode(s, n).Parsed? && !Short(s, n) {
        ReadFields(s, n, Get32(s, 4));
      }
    }
  }
}
