/** `ofl_msg_pack_packet_out`: the action loop, the payload after it, and what
    SET_FIELD values do to the message header. */
module PacketOut {
  import opened Wire
  import opened Actions

  /** sizeof(struct ofp_packet_out) */
  const FIXED: nat := 24

  /** OFPT_PACKET_OUT */
  const PACKET_OUT: Byte := 13

  predicate AllKnown(actions: seq<Action>) {
    forall i | 0 <= i < |actions| :: Known(actions[i])
  }

  /** Where action i of the list starts. */
  function ActionOffset(actions: seq<Action>, i: nat): nat
    requires i <= |actions|
  {
    FIXED + TotalLen(actions[..i])
  }

  lemma {:induction false} OffsetsGrow(actions: seq<Action>, i: nat, j: nat)
    requires i < j <= |actions|
    ensures ActionOffset(actions, i) + LenOf(actions[i]) <= ActionOffset(actions, j)
    decreases j
  {
    assert actions[..j][..j - 1] == actions[..j - 1];
    if i < j - 1 {
      OffsetsGrow(actions, i, j - 1);
    }
  }

  /** The SET_FIELD packer is given the start of the message as its data
      pointer, so the value lands on bytes 8 onwards: the fixed fields of the
      packet-out.  h holds those 16 bytes. */
  function WriteField(h: seq<Byte>, a: Action): (r: seq<Byte>)
    requires |h| == 16 && Known(a)
    ensures |r| == 16
  {
    if a.SetField? then
      var n := OxmLength(a.header);
      seq(16, i requires 0 <= i < 16 =>
        if i < n && Copied(n) then FieldBytes(a.header, a.value)[i]
        else if n <= i < RoundUp8(n) then 0
        else h[i])
    else h
  }

  function Overlay(h: seq<Byte>, actions: seq<Action>): (r: seq<Byte>)
    requires |h| == 16 && AllKnown(actions)
    ensures |r| == 16
  {
    if actions == [] then h
    else WriteField(Overlay(h, actions[..|actions| - 1]), actions[|actions| - 1])
  }

  /** The fixed fields as the packer first writes them. */
  predicate Fixed(h: seq<Byte>, bufferId: U32, inPort: U32, actLen: nat)
    requires |h| == 16
  {
    Get32(h, 0) == bufferId && Get32(h, 4) == inPort && Get16(h, 8) == actLen % 0x1_0000 && Zeros(h, 10, 16)
  }

  lemma ActionFrame(s: seq<Byte>, t: seq<Byte>, o: nat, a: Action)
    requires |s| == |t| && o + LenOf(a) <= |s| && ActionAt(s, o, a)
    requires SameInside(s, t, o, o + LenOf(a))
    ensures ActionAt(t, o, a)
  {
  }

  /** The list of actions, one after the other. */
  ghost predicate ActionsAt(s: seq<Byte>, actions: seq<Action>, n: nat)
    requires n <= |actions| && ActionOffset(actions, n) <= |s|
  {
    forall i {:trigger ActionOffset(actions, i)} | 0 <= i < n ::
      ActionOffset(actions, i) + LenOf(actions[i]) <= |s| && ActionAt(s, ActionOffset(actions, i), actions[i])
  }

  /** The bytes of the first n SET_FIELD actions behind their structs, where
      their values belong, are those that were there before. */
  ghost predicate KeptAt(was: seq<Byte>, s: seq<Byte>, actions: seq<Action>, n: nat)
    requires n <= |actions| && ActionOffset(actions, n) <= |s| == |was|
  {
    forall i {:trigger ActionOffset(actions, i)} | 0 <= i < n ::
      ActionOffset(actions, i) + LenOf(actions[i]) <= |s|
      && forall j | ActionOffset(actions, i) + StructLen(actions[i]) <= j < ActionOffset(actions, i) + LenOf(actions[i]) ::
           s[j] == was[j]
  }

  lemma EarlierKept(was: seq<Byte>, s: seq<Byte>, t: seq<Byte>, actions: seq<Action>, n: nat)
    requires n < |actions| && |s| == |t| == |was| && ActionOffset(actions, n) + LenOf(actions[n]) <= |s|
    requires KeptAt(was, s, actions, n) && forall i | 24 <= i < ActionOffset(actions, n) :: t[i] == s[i]
    requires forall j | ActionOffset(actions, n) + StructLen(actions[n]) <= j < ActionOffset(actions, n) + LenOf(actions[n]) ::
               t[j] == was[j]
    ensures ActionOffset(actions, n + 1) <= |s|
    ensures KeptAt(was, t, actions, n + 1)
  {
    assert actions[..n + 1][..n] == actions[..n];
    forall i {:trigger ActionOffset(actions, i)} | 0 <= i < n + 1
      ensures ActionOffset(actions, i) + LenOf(actions[i]) <= |t|
      ensures forall j | ActionOffset(actions, i) + StructLen(actions[i]) <= j < ActionOffset(actions, i) + LenOf(actions[i]) ::
                t[j] == was[j]
    {
      if i < n { OffsetsGrow(actions, i, n); }
    }
  }

  /** What the loop has done after n actions: they are in place, the fixed fields
      are overlaid with their values, and the rest is as it was. */
  ghost predicate PackedTo(was: seq<Byte>, s: seq<Byte>, actions: seq<Action>, h: seq<Byte>, n: nat)
    requires AllKnown(actions) && |h| == 16 && n <= |actions|
  {
    && 24 <= ActionOffset(actions, n) <= |s| == |was|
    && ActionsAt(s, actions, n) && KeptAt(was, s, actions, n)
    && s[8..24] == Overlay(h, actions[..n])
    && forall j | ActionOffset(actions, n) <= j < |s| :: s[j] == was[j]
  }

  lemma EarlierActions(s: seq<Byte>, t: seq<Byte>, actions: seq<Action>, n: nat)
    requires n < |actions| && |s| == |t| && ActionOffset(actions, n) + LenOf(actions[n]) <= |s|
    requires ActionsAt(s, actions, n) && ActionAt(t, ActionOffset(actions, n), actions[n])
    requires forall i | 24 <= i < ActionOffset(actions, n) :: t[i] == s[i]
    ensures ActionOffset(actions, n + 1) <= |s|
    ensures ActionsAt(t, actions, n + 1)
  {
    assert actions[..n + 1][..n] == actions[..n];
    forall i | 0 <= i < n + 1
      ensures ActionOffset(actions, i) + LenOf(actions[i]) <= |t| && ActionAt(t, ActionOffset(actions, i), actions[i])
    {
      if i < n {
        OffsetsGrow(actions, i, n);
        ActionFrame(s, t, ActionOffset(actions, i), actions[i]);
      }
    }
  }

  lemma RoundUpBounds(n: nat)
    ensures n <= RoundUp8(n) < n + 8 && RoundUp8(n) % 8 == 0
    ensures n == 0 ==> RoundUp8(n) == 0
  {
  }

  lemma HeaderAfter(s: seq<Byte>, t: seq<Byte>, a: Action, h: seq<Byte>, before: seq<Action>)
    requires |s| == |t| >= 24 && |h| == 16 && AllKnown(before) && Known(a)
    requires s[8..24] == Overlay(h, before)
    requires a.SetField? ==> LenOf(a) <= |t| && ValueAt(t, 0, a)
    requires forall i | 8 <= i < 24 && (a.SetField? ==> i < ValueStart(0, a) || i >= LenOf(a)) :: t[i] == s[i]
    ensures AllKnown(before + [a]) && t[8..24] == Overlay(h, before + [a])
  {
    assert (before + [a])[..|before|] == before;
    if a.SetField? { RoundUpBounds(OxmLength(a.header)); }
    var r := WriteField(Overlay(h, before), a);
    forall i | 0 <= i < 16
      ensures t[8..24][i] == r[i]
    {
      assert s[8..24][i] == s[8 + i] && t[8..24][i] == t[8 + i];
      if a.SetField? {
        var n := OxmLength(a.header);
        if i < n && Copied(n) { assert t[0 + 8..0 + 8 + n][i] == FieldBytes(a.header, a.value)[i]; }
      }
    }
  }

  lemma NextPacked(was: seq<Byte>, s: seq<Byte>, t: seq<Byte>, actions: seq<Action>, h: seq<Byte>, n: nat)
    requires AllKnown(actions) && |h| == 16 && n < |actions| && PackedTo(was, s, actions, h, n)
    requires var o, a := ActionOffset(actions, n), actions[n];
             && |s| == |t| && o + LenOf(a) <= |t| && ActionAt(t, o, a) && LenOf(a) <= 24
             && (a.SetField? ==> ValueAt(t, 0, a))
             && (forall i | 0 <= i < |t| && !(o <= i < o + StructLen(a)) && (a.SetField? ==> !(ValueStart(0, a) <= i < LenOf(a))) ::
                   t[i] == s[i])
    ensures PackedTo(was, t, actions, h, n + 1)
    ensures ActionOffset(actions, n + 1) == ActionOffset(actions, n) + LenOf(actions[n])
  {
    assert actions[..n + 1][..n] == actions[..n];
    assert actions[..n] + [actions[n]] == actions[..n + 1];
    EarlierActions(s, t, actions, n);
    EarlierKept(was, s, t, actions, n);
    HeaderAfter(s, t, actions[n], h, actions[..n]);
  }

  /** The loop: each action starts where the one before ended, the cursor ends
      after exactly the computed length, the fixed fields are overlaid with the
      SET_FIELD values, and the places where those values belong are not
      written. */
  method PackActions(buf: array<Byte>, actions: seq<Action>, ghost h: seq<Byte>) returns (ptr: nat)
    requires AllKnown(actions) && FIXED + TotalLen(actions) <= buf.Length
    requires |h| == 16 && buf[8..24] == h
    modifies buf
    ensures ptr == ActionOffset(actions, |actions|) == FIXED + TotalLen(actions)
    ensures ActionsAt(buf[..], actions, |actions|)
    ensures buf[8..24] == Overlay(h, actions)
    ensures KeptAt(old(buf[..]), buf[..], actions, |actions|)
  {
    ghost var was := buf[..];
    ptr := FIXED;
    var i := 0;
    assert actions[..|actions|] == actions;
    while i < |actions|
      invariant 0 <= i <= |actions| && ptr == ActionOffset(actions, i)
      invariant PackedTo(was, buf[..], actions, h, i)
    {
      OffsetsGrow(actions, i, |actions|);
      ghost var s := buf[..];
      LenMultipleOf8(actions[i]);
      var len := PackAction(buf, ptr, 0, actions[i]);
      NextPacked(was, s, buf[..], actions, h, i);
      ptr := ptr + len;
      i := i + 1;
    }
  }

  datatype Packet = Packet(bufferId: U32, inPort: U32, actions: seq<Action>, data: seq<Byte>, xid: U32)

  function SizeOf(m: Packet): nat {
    FIXED + TotalLen(m.actions) + |m.data|
  }

  /** The fixed fields as the packer first writes them. */
  function FixedFields(m: Packet): (h: seq<Byte>)
    ensures |h| == 16 && Fixed(h, m.bufferId, m.inPort, TotalLen(m.actions))
  {
    var port, len := Bytes32(m.inPort), Bytes16(TotalLen(m.actions) % 0x1_0000);
    Bytes32(m.bufferId) + port + len + [0, 0, 0, 0, 0, 0]
  }

  /** What a packet-out consists of: header, fixed fields under the SET_FIELD
      values, actions, payload.  Where those values belong it says nothing. */
  ghost predicate PacketAt(s: seq<Byte>, m: Packet) {
    && AllKnown(m.actions) && |s| == SizeOf(m)
    && s[0] == OFP_VERSION && s[1] == PACKET_OUT && Get16(s, 2) == |s| % 0x1_0000 && Get32(s, 4) == m.xid
    && s[8..24] == Overlay(FixedFields(m), m.actions)
    && ActionOffset(m.actions, |m.actions|) <= |s| && ActionsAt(s, m.actions, |m.actions|)
    && s[FIXED + TotalLen(m.actions)..] == m.data
  }

  lemma Same16(s: seq<Byte>, t: seq<Byte>, o: nat)
    requires o + 2 <= |s| && o + 2 <= |t| && Get16(s, o) == Get16(t, o)
    ensures s[o] == t[o] && s[o + 1] == t[o + 1]
  {
  }

  lemma Same32(s: seq<Byte>, t: seq<Byte>, o: nat)
    requires o + 4 <= |s| && o + 4 <= |t| && Get32(s, o) == Get32(t, o)
    ensures forall i | o <= i < o + 4 :: s[i] == t[i]
  {
    Same16(s, t, o);
    Same16(s, t, o + 2);
  }

  lemma FixedOnly(h: seq<Byte>, m: Packet)
    requires |h| == 16 && Fixed(h, m.bufferId, m.inPort, TotalLen(m.actions))
    ensures h == FixedFields(m)
  {
    var f := FixedFields(m);
    Same32(h, f, 0);
    Same32(h, f, 4);
    Same16(h, f, 8);
  }

  method PutFixedFields(buf: array<Byte>, m: Packet, actLen: nat)
    requires buf.Length >= 24 && actLen == TotalLen(m.actions)
    modifies buf
    ensures buf[8..24] == FixedFields(m) && SameOutside(old(buf[..]), buf[..], 8, 24)
  {
    Put32(buf, 8, m.bufferId);
    Put32(buf, 12, m.inPort);
    Put16(buf, 16, actLen % 0x1_0000);
    Clear(buf, 18, 6);
    FixedOnly(buf[8..24], m);
  }

  lemma AllActionsFrame(s: seq<Byte>, t: seq<Byte>, actions: seq<Action>)
    requires |s| == |t| && ActionOffset(actions, |actions|) <= |s| && ActionsAt(s, actions, |actions|)
    requires forall i | 24 <= i < ActionOffset(actions, |actions|) :: t[i] == s[i]
    ensures ActionsAt(t, actions, |actions|)
  {
    forall i | 0 <= i < |actions|
      ensures ActionOffset(actions, i) + LenOf(actions[i]) <= |t| && ActionAt(t, ActionOffset(actions, i), actions[i])
    {
      OffsetsGrow(actions, i, |actions|);
      ActionFrame(s, t, ActionOffset(actions, i), actions[i]);
    }
  }

  lemma AllKeptFrame(memory: seq<Byte>, was: seq<Byte>, s: seq<Byte>, t: seq<Byte>, actions: seq<Action>)
    requires |memory| == |was| == |s| == |t| && ActionOffset(actions, |actions|) <= |s|
    requires KeptAt(was, s, actions, |actions|)
    requires forall i | 24 <= i < |s| :: was[i] == memory[i]
    requires forall i | 24 <= i < ActionOffset(actions, |actions|) :: t[i] == s[i]
    ensures KeptAt(memory, t, actions, |actions|)
  {
    forall i {:trigger ActionOffset(actions, i)} | 0 <= i < |actions|
      ensures ActionOffset(actions, i) + LenOf(actions[i]) <= |t|
      ensures forall j | ActionOffset(actions, i) + StructLen(actions[i]) <= j < ActionOffset(actions, i) + LenOf(actions[i]) ::
                t[j] == memory[j]
    {
      OffsetsGrow(actions, i, |actions|);
    }
  }

  /** The payload behind the actions, and the header. */
  method FinishPacket(buf: array<Byte>, ptr: nat, m: Packet)
    requires AllKnown(m.actions) && buf.Length == SizeOf(m) && ptr == FIXED + TotalLen(m.actions)
    requires ptr == ActionOffset(m.actions, |m.actions|) && ActionsAt(buf[..], m.actions, |m.actions|)
    requires buf[8..24] == Overlay(FixedFields(m), m.actions)
    modifies buf
    ensures PacketAt(buf[..], m)
    ensures forall i | 24 <= i < ptr :: buf[i] == old(buf[i])
  {
    ghost var s := buf[..];
    if |m.data| > 0 {
      Copy(buf, ptr, m.data);
    }
    PackHeader(buf, PACKET_OUT, m.xid);
    AllActionsFrame(s, buf[..], m.actions);
    assert buf[8..24] == s[8..24];
    assert buf[ptr..] == m.data;
  }

  /** The whole packet-out, header included (`ofl_msg_pack`), in memory that
      holds what malloc left there. */
  method PackPacketOut(m: Packet, memory: seq<Byte>) returns (buf: array<Byte>)
    requires AllKnown(m.actions) && |memory| == SizeOf(m)
    ensures fresh(buf) && PacketAt(buf[..], m)
    ensures KeptAt(memory, buf[..], m.actions, |m.actions|)
  {
    var actLen := ActionsTotalLen(m.actions);
    buf := new Byte[FIXED + actLen + |m.data|](i requires 0 <= i < |memory| => memory[i]);
    PutFixedFields(buf, m, actLen);
    ghost var was := buf[..];
    var ptr := PackActions(buf, m.actions, FixedFields(m));
    ghost var s := buf[..];
    FinishPacket(buf, ptr, m);
    AllKeptFrame(memory, was, s, buf[..], m.actions);
  }

  // ---------------------------------------------- what the packet depends on

  /** Every byte of the action list belongs to one of the actions. */
  lemma {:induction false} OwnerOf(actions: seq<Action>, n: nat, k: nat) returns (i: nat)
    requires n <= |actions| && FIXED <= k < ActionOffset(actions, n)
    ensures i < n && ActionOffset(actions, i) <= k < ActionOffset(actions, i) + LenOf(actions[i])
  {
    assert actions[..n][..n - 1] == actions[..n - 1];
    if k < ActionOffset(actions, n - 1) {
      i := OwnerOf(actions, n - 1, k);
    } else {
      i := n - 1;
    }
  }

  lemma SameFields(s: seq<Byte>, t: seq<Byte>, o: nat, a: Action, k: nat)
    requires o + LenOf(a) <= |s| && o + LenOf(a) <= |t| && FieldsAt(s, o, a) && FieldsAt(t, o, a)
    requires o + 4 <= k < o + StructLen(a)
    ensures s[k] == t[k]
  {
    match a
    case Output(_, _) =>
      Same32(s, t, o + 4);
      Same16(s, t, o + 8);
    case PushVlan(_) => Same16(s, t, o + 4);
    case PushMpls(_) => Same16(s, t, o + 4);
    case PushPbb(_) => Same16(s, t, o + 4);
    case PopMpls(_) => Same16(s, t, o + 4);
    case SetQueue(_) => Same32(s, t, o + 4);
    case Group(_) => Same32(s, t, o + 4);
    case SetField(_, _) => Same32(s, t, o + 4);
    case _ =>
  }

  /** The action says every byte of its struct. */
  lemma SameStruct(s: seq<Byte>, t: seq<Byte>, o: nat, a: Action, k: nat)
    requires o + LenOf(a) <= |s| && o + LenOf(a) <= |t| && ActionAt(s, o, a) && ActionAt(t, o, a)
    requires o <= k < o + StructLen(a)
    ensures s[k] == t[k]
  {
    Same16(s, t, o);
    Same16(s, t, o + 2);
    if k >= o + 4 {
      SameFields(s, t, o, a, k);
    }
  }

  predicate Stale(actions: seq<Action>, i: nat, j: nat)
    requires i < |actions|
  {
    ActionOffset(actions, i) + StructLen(actions[i]) <= j < ActionOffset(actions, i) + LenOf(actions[i])
  }

  /** Two memories hold the same where the values of SET_FIELD actions belong. */
  ghost predicate StaleSame(a: seq<Byte>, b: seq<Byte>, actions: seq<Action>) {
    forall i, j: nat | 0 <= i < |actions| && Stale(actions, i, j) && j < |a| && j < |b| :: a[j] == b[j]
  }

  lemma SameByte(m: Packet, s: seq<Byte>, t: seq<Byte>, a: seq<Byte>, b: seq<Byte>, k: nat)
    requires PacketAt(s, m) && PacketAt(t, m) && |a| == |b| == SizeOf(m) && k < |s|
    requires KeptAt(a, s, m.actions, |m.actions|) && KeptAt(b, t, m.actions, |m.actions|)
    requires StaleSame(a, b, m.actions)
    ensures s[k] == t[k]
  {
    var end := FIXED + TotalLen(m.actions);
    assert m.actions[..|m.actions|] == m.actions;
    if k < 8 {
      Same16(s, t, 2);
      Same32(s, t, 4);
    } else if k < 24 {
      assert s[8..24][k - 8] == t[8..24][k - 8];
    } else if k < end {
      var i := OwnerOf(m.actions, |m.actions|, k);
      var o := ActionOffset(m.actions, i);
      if k < o + StructLen(m.actions[i]) {
        SameStruct(s, t, o, m.actions[i], k);
      } else {
        assert Stale(m.actions, i, k);
      }
    } else {
      assert s[end..][k - end] == t[end..][k - end];
    }
  }

  /** The same message packed in two memories gives the same bytes exactly when
      the memories agree there. */
  lemma SamePacketIff(m: Packet, s: seq<Byte>, t: seq<Byte>, a: seq<Byte>, b: seq<Byte>)
    requires PacketAt(s, m) && PacketAt(t, m) && |a| == |b| == SizeOf(m)
    requires KeptAt(a, s, m.actions, |m.actions|) && KeptAt(b, t, m.actions, |m.actions|)
    ensures s == t <==> StaleSame(a, b, m.actions)
  {
    if StaleSame(a, b, m.actions) {
      forall k | 0 <= k < |s|
        ensures s[k] == t[k]
      {
        SameByte(m, s, t, a, b, k);
      }
    }
    if s == t {
      forall i, j: nat | 0 <= i < |m.actions| && Stale(m.actions, i, j) && j < |a| && j < |b|
        ensures a[j] == b[j]
      {
        assert ActionOffset(m.actions, i) <= j;
      }
    }
  }

  /** So the packet depends on the message alone, whatever malloc returns,
      exactly when no action sets a field of at least one byte. */
  lemma MessageDecidesPacketIff(m: Packet)
    requires AllKnown(m.actions)
    ensures (forall a: seq<Byte>, b: seq<Byte> | |a| == |b| == SizeOf(m) :: StaleSame(a, b, m.actions))
            <==> forall i | 0 <= i < |m.actions| && m.actions[i].SetField? :: OxmLength(m.actions[i].header) == 0
  {
    if i :| 0 <= i < |m.actions| && m.actions[i].SetField? && OxmLength(m.actions[i].header) != 0 {
      var a: seq<Byte>, b: seq<Byte> := seq(SizeOf(m), _ => 0), seq(SizeOf(m), _ => 1);
      var j := ActionOffset(m.actions, i) + 8;
      RoundUpBounds(OxmLength(m.actions[i].header));
      OffsetsGrow(m.actions, i, |m.actions|);
      assert m.actions[..|m.actions|] == m.actions;
      assert Stale(m.actions, i, j) && a[j] != b[j];
      assert !StaleSame(a, b, m.actions);
    } else {
      forall i | 0 <= i < |m.actions|
        ensures StructLen(m.actions[i]) == LenOf(m.actions[i])
      {
        RoundUpBounds(0);
      }
    }
  }

  // ------------------------------------------- when the header survives

  /** Fixed fields that announce `actLen` bytes of actions. */
  predicate Announces(h: seq<Byte>, actLen: nat) {
    |h| == 16 && Get16(h, 8) == actLen % 0x1_0000 && Zeros(h, 10, 16)
  }

  /** A SET_FIELD that leaves the fixed fields alone: it writes nothing, or
      only zeros where there are zeros already. */
  predicate Harmless(a: Action, actLen: nat) {
    a.SetField? ==>
      var n := OxmLength(a.header);
      n == 0 || 10 <= n < 16 || (n == 9 && actLen % 0x100 == 0)
  }

  predicate AllHarmless(actions: seq<Action>, actLen: nat) {
    forall i | 0 <= i < |actions| :: Harmless(actions[i], actLen)
  }

  lemma LowByte(h: seq<Byte>, actLen: nat)
    requires Announces(h, actLen)
    ensures h[9] == actLen % 0x100
  {
    var hi: nat, lo: nat := h[8], h[9];
    assert hi * 0x100 + lo == actLen % 0x1_0000;
  }

  lemma HarmlessWrites(h: seq<Byte>, a: Action, actLen: nat)
    requires Announces(h, actLen) && Known(a) && Harmless(a, actLen)
    ensures WriteField(h, a) == h
  {
    LowByte(h, actLen);
    if a.SetField? {
      var n := OxmLength(a.header);
      RoundUpBounds(n);
      forall i | 0 <= i < 16
        ensures WriteField(h, a)[i] == h[i]
      {
        assert !Copied(n) || n == 0;
      }
    }
  }

  lemma {:induction false} HarmlessKeeps(h: seq<Byte>, actions: seq<Action>, actLen: nat)
    requires Announces(h, actLen) && AllKnown(actions) && AllHarmless(actions, actLen)
    ensures Overlay(h, actions) == h
  {
    if actions != [] {
      HarmlessKeeps(h, actions[..|actions| - 1], actLen);
      HarmlessWrites(h, actions[|actions| - 1], actLen);
    }
  }

  /** Byte k of the fixed fields no longer depends on what was there, or it was
      the low byte of a length and is now zero. */
  ghost predicate Damaged(actions: seq<Action>, actLen: nat, k: nat)
    requires AllKnown(actions)
  {
    || (k < 8 && forall g, h | Announces(g, actLen) && Announces(h, actLen) :: Overlay(g, actions)[k] == Overlay(h, actions)[k])
    || (k == 9 && actLen % 0x100 != 0 && forall h | Announces(h, actLen) :: Overlay(h, actions)[9] == 0)
  }

  lemma HarmfulDamages(actions: seq<Action>, actLen: nat) returns (k: nat)
    requires AllKnown(actions) && actions != [] && !Harmless(actions[|actions| - 1], actLen)
    ensures Damaged(actions, actLen, k)
  {
    var n := OxmLength(actions[|actions| - 1].header);
    RoundUpBounds(n);
    k := if Copied(n) then 0 else n;
  }

  lemma HarmlessSpares(h: seq<Byte>, a: Action, actLen: nat, k: nat)
    requires |h| == 16 && Known(a) && Harmless(a, actLen)
    requires k < 8 || (k == 9 && actLen % 0x100 != 0)
    ensures WriteField(h, a)[k] == h[k]
  {
    if a.SetField? {
      var n := OxmLength(a.header);
      RoundUpBounds(n);
      assert !Copied(n);
    }
  }

  /** Damage done by one action is not undone by later ones. */
  lemma {:induction false} SomeDamage(actions: seq<Action>, actLen: nat) returns (k: nat)
    requires AllKnown(actions) && !AllHarmless(actions, actLen)
    ensures Damaged(actions, actLen, k)
  {
    var init, last := actions[..|actions| - 1], actions[|actions| - 1];
    if Harmless(last, actLen) {
      k := SomeDamage(init, actLen);
      forall h | Announces(h, actLen)
        ensures Overlay(h, actions)[k] == Overlay(h, init)[k]
      {
        HarmlessSpares(Overlay(h, init), last, actLen, k);
      }
    } else {
      k := HarmfulDamages(actions, actLen);
    }
  }

  function Sample(actLen: nat, b: Byte): (h: seq<Byte>)
    ensures Announces(h, actLen) && forall i | 0 <= i < 8 :: h[i] == b
  {
    [b, b, b, b, b, b, b, b] + Bytes16(actLen % 0x1_0000) + [0, 0, 0, 0, 0, 0]
  }

  /** The fixed fields of every packet-out with these actions survive exactly
      when each of them is harmless. */
  lemma HeaderSurvivesIff(actions: seq<Action>, actLen: nat)
    requires AllKnown(actions)
    ensures (forall h | Announces(h, actLen) :: Overlay(h, actions) == h) <==> AllHarmless(actions, actLen)
  {
    if AllHarmless(actions, actLen) {
      forall h | Announces(h, actLen)
        ensures Overlay(h, actions) == h
      {
        HarmlessKeeps(h, actions, actLen);
      }
    } else {
      var k := SomeDamage(actions, actLen);
      var g, h := Sample(actLen, 0), Sample(actLen, 1);
      LowByte(g, actLen);
      assert Overlay(g, actions)[k] != g[k] || Overlay(h, actions)[k] != h[k];
    }
  }

  /** An address is copied as given, and four zeros after it. */
  lemma AddressWritten(h: seq<Byte>, a: Action)
    requires |h| == 16 && a.SetField? && OxmLength(a.header) == 4 && OxmField(a.header) == 11 && |a.value| == 4
    ensures LenOf(a) == 16 && WriteField(h, a)[..4] == a.value
    ensures Get32(WriteField(h, a), 4) == 0
  {
    assert FieldBytes(a.header, a.value) == a.value[..4] == a.value;
    RoundUpBounds(4);
  }

  /** One SET_FIELD of the IPv4 source address, and the buffer id on the wire
      is that address, the port 0. */
  lemma AddressReplacesBufferId(bufferId: U32, inPort: U32, v: seq<Byte>, h: seq<Byte>)
    requires |v| == 4 && |h| == 16 && Fixed(h, bufferId, inPort, 16)
    ensures var a := SetField(0x8000_1604, v);
            && Known(a) && LenOf(a) == 16
            && Overlay(h, [a])[..4] == v
            && Get32(Overlay(h, [a]), 4) == 0
  {
    var a := SetField(0x8000_1604, v);
    assert OxmLength(a.header) == 4 && OxmField(a.header) == 11;
    assert [a][..0] == [] && Overlay(h, [a]) == WriteField(h, a);
    AddressWritten(h, a);
  }
}
