/** What the UDP wire format promises, over every message and every byte string. */
module WireTheorems {
  import opened Bytes
  import opened Grammar
  import opened Protocol
  import opened Wire

  // ---------- the normal form of a message ----------

  /**
   * The part of a message the wire carries: the encoder takes the version from its context and the type
   * from the variant, drops `capabilities` and `requestedVideoProfile`, and drops the ids inside a
   * heartbeat observation, which the decoder refills from the message.
   */
  function Normal(v: Version, m: ProtocolMessage): ProtocolMessage {
    match m
    case AuthRequestMsg(r) =>
      AuthRequestMsg(r.(messageType := AuthRequestType, protocolVersion := v, capabilities := [],
                        requestedVideoProfile := None))
    case AuthResponseMsg(r) => AuthResponseMsg(r.(messageType := AuthResponseType, protocolVersion := v))
    case HeartbeatMsg(h) => HeartbeatMsg(h.(messageType := HeartbeatType, protocolVersion := v))
    case HeartbeatAckMsg(a) => HeartbeatAckMsg(a.(messageType := HeartbeatAckType, protocolVersion := v))
    case VideoFrameMsg(f) => VideoFrameMsg(f.(messageType := VideoFrameType, protocolVersion := v))
    case VideoFrameFragmentMsg(f) =>
      VideoFrameFragmentMsg(f.(messageType := VideoFrameFragmentType, protocolVersion := v))
    case ClientStatsMsg(s) =>
      ClientStatsMsg(s.(messageType := ClientStatsType, protocolVersion := v,
                     heartbeatObservation := match s.heartbeatObservation
                                             case None => None
                                             case Some(o) => Some(o.(clientId := s.clientId, runId := s.runId))))
    case ServerNoticeMsg(n) => ServerNoticeMsg(n.(messageType := ServerNoticeType, protocolVersion := v))
  }

  /** `m` already carries nothing but what the wire keeps. */
  predicate IsNormal(v: Version, m: ProtocolMessage) {
    match m
    case AuthRequestMsg(r) =>
      r.messageType == AuthRequestType && r.protocolVersion == v && r.capabilities == []
      && r.requestedVideoProfile == None
    case AuthResponseMsg(r) => r.messageType == AuthResponseType && r.protocolVersion == v
    case HeartbeatMsg(h) => h.messageType == HeartbeatType && h.protocolVersion == v
    case HeartbeatAckMsg(a) => a.messageType == HeartbeatAckType && a.protocolVersion == v
    case VideoFrameMsg(f) => f.messageType == VideoFrameType && f.protocolVersion == v
    case VideoFrameFragmentMsg(f) => f.messageType == VideoFrameFragmentType && f.protocolVersion == v
    case ClientStatsMsg(s) =>
      s.messageType == ClientStatsType && s.protocolVersion == v &&
      (s.heartbeatObservation.Some? ==>
         s.heartbeatObservation.value.clientId == s.clientId && s.heartbeatObservation.value.runId == s.runId)
    case ServerNoticeMsg(n) => n.messageType == ServerNoticeType && n.protocolVersion == v
  }

  // ---------- values and messages ----------

  lemma VideoToValuesAndBack(v: Version, m: ProtocolMessage)
    requires EncodeFault(m).None? && FitAll(Layout(Kind(m)), ToValues(m))
    requires m.VideoFrameMsg? || m.VideoFrameFragmentMsg?
    ensures FromValues(Kind(m), v, ToValues(m)) == Normal(v, m)
  {
    hide ValidUtf8;
  }

  lemma AuthToValuesAndBack(v: Version, m: ProtocolMessage)
    requires FitAll(Layout(Kind(m)), ToValues(m))
    requires m.AuthRequestMsg? || m.AuthResponseMsg?
    ensures FromValues(Kind(m), v, ToValues(m)) == Normal(v, m)
  {
    hide ValidUtf8;
  }

  lemma HeartbeatToValuesAndBack(v: Version, m: ProtocolMessage)
    requires FitAll(Layout(Kind(m)), ToValues(m))
    requires m.HeartbeatMsg? || m.HeartbeatAckMsg?
    ensures FromValues(Kind(m), v, ToValues(m)) == Normal(v, m)
  {
    hide ValidUtf8;
  }

  lemma OtherToValuesAndBack(v: Version, m: ProtocolMessage)
    requires FitAll(Layout(Kind(m)), ToValues(m))
    requires m.ClientStatsMsg? || m.ServerNoticeMsg?
    ensures FromValues(Kind(m), v, ToValues(m)) == Normal(v, m)
  {
    hide ValidUtf8;
  }

  lemma VideoFrameAndBack(v: Version, vs: seq<Value>)
    requires FitAll(Layout(VideoFrameType), vs)
    ensures var m := VideoFrameMsg(VideoFrameOf(v, vs));
            EncodeFault(m).None? && ToValues(m) == vs
  {
    hide ValidUtf8;
    FitEach(Layout(VideoFrameType), vs);
  }

  lemma VideoFrameFragmentAndBack(v: Version, vs: seq<Value>)
    requires FitAll(Layout(VideoFrameFragmentType), vs)
    ensures var m := VideoFrameFragmentMsg(VideoFrameFragmentOf(v, vs));
            EncodeFault(m).None? && ToValues(m) == vs
  {
    hide ValidUtf8;
    FitEach(Layout(VideoFrameFragmentType), vs);
  }

  lemma AuthRequestAndBack(v: Version, vs: seq<Value>)
    requires FitAll(Layout(AuthRequestType), vs)
    ensures ToValues(AuthRequestMsg(AuthRequestOf(v, vs))) == vs
  {
    hide ValidUtf8;
    FitEach(Layout(AuthRequestType), vs);
  }

  lemma AuthResponseAndBack(v: Version, vs: seq<Value>)
    requires FitAll(Layout(AuthResponseType), vs)
    ensures ToValues(AuthResponseMsg(AuthResponseOf(v, vs))) == vs
  {
    hide ValidUtf8;
    FitEach(Layout(AuthResponseType), vs);
  }

  lemma ClientStatsAndBack(v: Version, vs: seq<Value>)
    requires FitAll(Layout(ClientStatsType), vs)
    ensures ToValues(ClientStatsMsg(ClientStatsOf(v, vs))) == vs
  {
    hide ValidUtf8;
    FitEach(Layout(ClientStatsType), vs);
  }

  lemma HeartbeatAndBack(v: Version, vs: seq<Value>)
    requires FitAll(Layout(HeartbeatType), vs)
    ensures ToValues(HeartbeatMsg(HeartbeatOf(v, vs))) == vs
  {
    hide ValidUtf8;
    FitEach(Layout(HeartbeatType), vs);
  }

  lemma HeartbeatAckAndBack(v: Version, vs: seq<Value>)
    requires FitAll(Layout(HeartbeatAckType), vs)
    ensures ToValues(HeartbeatAckMsg(HeartbeatAckOf(v, vs))) == vs
  {
    hide ValidUtf8;
    FitEach(Layout(HeartbeatAckType), vs);
  }

  lemma ServerNoticeAndBack(v: Version, vs: seq<Value>)
    requires FitAll(Layout(ServerNoticeType), vs)
    ensures ToValues(ServerNoticeMsg(ServerNoticeOf(v, vs))) == vs
  {
    hide ValidUtf8;
    FitEach(Layout(ServerNoticeType), vs);
  }

  lemma {:induction false} MessageToValuesAndBack(v: Version, m: ProtocolMessage)
    requires EncodeFault(m).None? && FitAll(Layout(Kind(m)), ToValues(m))
    ensures FromValues(Kind(m), v, ToValues(m)) == Normal(v, m)
  {
    hide Layout, ToValues, FitAll, FromValues, Normal;
    match m
    case VideoFrameMsg(_) | VideoFrameFragmentMsg(_) => VideoToValuesAndBack(v, m);
    case AuthRequestMsg(_) | AuthResponseMsg(_) => AuthToValuesAndBack(v, m);
    case HeartbeatMsg(_) | HeartbeatAckMsg(_) => HeartbeatToValuesAndBack(v, m);
    case _ => OtherToValuesAndBack(v, m);
  }

  lemma {:induction false} ValuesToMessageAndBack(kind: MessageType, v: Version, vs: seq<Value>)
    requires FitAll(Layout(kind), vs)
    ensures EncodeFault(FromValues(kind, v, vs)).None?
    ensures ToValues(FromValues(kind, v, vs)) == vs
  {
    hide Layout, ToValues, FitAll;
    match kind
    case AuthRequestType => AuthRequestAndBack(v, vs);
    case AuthResponseType => AuthResponseAndBack(v, vs);
    case HeartbeatType => HeartbeatAndBack(v, vs);
    case HeartbeatAckType => HeartbeatAckAndBack(v, vs);
    case VideoFrameType => VideoFrameAndBack(v, vs);
    case VideoFrameFragmentType => VideoFrameFragmentAndBack(v, vs);
    case ClientStatsType => ClientStatsAndBack(v, vs);
    case ServerNoticeType => ServerNoticeAndBack(v, vs);
  }

  // ---------- what is written ----------

  /** Writing stops at the first string that is too long, and nowhere else. */
  lemma {:induction false} WriteStops(fs: seq<Field>, vs: seq<Value>, k: nat)
    requires Writable(fs, vs) && k <= |fs|
    ensures WriteUpTo(fs, vs, k).fault.None? <==> forall i :: 0 <= i < k ==> !TooLong(vs[i])
    ensures WriteUpTo(fs, vs, k).fault.Some? ==>
              exists i :: 0 <= i < k && TooLong(vs[i]) && (forall j :: 0 <= j < i ==> !TooLong(vs[j]))
                          && WriteUpTo(fs, vs, k).fault == Put(fs[i], vs[i]).fault
    decreases k
  {
    if k > 0 {
      WriteStops(fs, vs, k - 1);
    }
  }

  lemma {:induction false} WritePrints(fs: seq<Field>, vs: seq<Value>, k: nat)
    requires FitAll(fs, vs) && Writable(fs, vs) && k <= |fs|
    ensures WriteUpTo(fs, vs, k) == Written(PrintUpTo(fs, vs, k), None)
    decreases k
  {
    if k > 0 {
      WritePrints(fs, vs, k - 1);
      assert Fits(fs[k - 1], vs[k - 1]);
    }
  }

  /** A payload encoder succeeds exactly when every value fits its field, and then writes the printed payload. */
  lemma WritesPrintedPayload(m: ProtocolMessage)
    ensures WritePayload(m).fault.None? <==> EncodeFault(m).None? && FitAll(Layout(Kind(m)), ToValues(m))
    ensures WritePayload(m).fault.None? ==> WritePayload(m).bytes == PrintAll(Layout(Kind(m)), ToValues(m))
  {
    hide Layout, ToValues, EncodeFault, Fits;
    if EncodeFault(m).None? {
      var fs, vs := Layout(Kind(m)), ToValues(m);
      ValuesWritable(m);
      WriteStops(fs, vs, |fs|);
      FitsOrTooLong(fs, vs);
      if FitAll(fs, vs) {
        WritePrints(fs, vs, |fs|);
      }
    }
  }

  lemma FitsOrTooLong(fs: seq<Field>, vs: seq<Value>)
    requires Writable(fs, vs)
    ensures FitAll(fs, vs) <==> forall i :: 0 <= i < |fs| ==> !TooLong(vs[i])
  {
    forall i | 0 <= i < |fs|
      ensures Fits(fs[i], vs[i]) <==> !TooLong(vs[i])
    {
      assert CanPut(fs[i], vs[i]);
    }
  }

  // ---------- payloads ----------

  lemma PayloadRoundTrip(m: ProtocolMessage, header: FixedHeader)
    requires WritePayload(m).fault.None?
    requires header.messageType == Kind(m) && header.payloadLength == |WritePayload(m).bytes|
    ensures DecodePayload(header, WritePayload(m).bytes) == Ok(Normal(header.protocolVersion, m))
  {
    hide Layout, ToValues, EncodeFault, FitAll, FromValues, Normal, PrintAll, WritePayload, ParseAll;
    WritesPrintedPayload(m);
    RoundTrip(Layout(Kind(m)), ToValues(m));
    MessageToValuesAndBack(header.protocolVersion, m);
  }

  lemma {:induction false} PayloadReencode(header: FixedHeader, payload: seq<byte>)
    requires DecodePayload(header, payload).Ok?
    ensures var m := DecodePayload(header, payload).value;
            Kind(m) == header.messageType && WritePayload(m) == Written(payload, None)
  {
    hide Layout, ToValues, EncodeFault, FitAll, FromValues, PrintAll, ParseAll, ReadPayload, WritePayload;
    var vs := ReadPayload(Layout(header.messageType), payload).value;
    ValuesToMessageAndBack(header.messageType, header.protocolVersion, vs);
    WritesPrintedPayload(DecodePayload(header, payload).value);
  }

  /**
   * Cutting an accepted payload anywhere, with the header length set to match, is always reported as
   * `InvalidPayloadLength` with the cut length; extending it is reported with the full length it had.
   */
  lemma {:induction false} CutPayload(header: FixedHeader, payload: seq<byte>, n: nat)
    requires n < |payload| <= U32_MAX
    ensures DecodePayload(header, payload).Ok? ==>
              var r := DecodePayload(header.(payloadLength := n), payload[..n]);
              r.Err? && r.error.InvalidPayloadLength? && r.error.actual == n
  {
    hide Layout, FitAll, FromValues, PrintUpTo, ParseUpTo;
    if DecodePayload(header, payload).Ok? {
      var fs := Layout(header.messageType);
      var vs := ReadPayload(fs, payload).value;
      CutUpTo(fs, vs, |fs|, payload[..n]);
    }
  }

  lemma {:induction false} ExtendedPayload(header: FixedHeader, payload: seq<byte>, extra: seq<byte>)
    requires DecodePayload(header, payload).Ok? && extra != [] && |payload + extra| <= U32_MAX
    ensures DecodePayload(header.(payloadLength := |payload + extra|), payload + extra)
         == Err(InvalidPayloadLength(|payload|, |payload + extra|))
  {
    hide Layout, FitAll, FromValues, PrintUpTo, ParseUpTo;
    var fs := Layout(header.messageType);
    Extended(fs, ReadPayload(fs, payload).value, extra);
  }

  /** No accepted payload is a proper prefix of another one of its type. */
  lemma {:induction false} PrefixFree(h1: FixedHeader, p1: seq<byte>, h2: FixedHeader, p2: seq<byte>)
    requires h1.messageType == h2.messageType && DecodePayload(h1, p1).Ok? && DecodePayload(h2, p2).Ok?
    ensures !(p1 < p2)
  {
    if p1 < p2 {
      assert p2[..|p1|] == p1;
      CutPayload(h2, p2, |p1|);
    }
  }

  // ---------- packets ----------

  /** Encoding then decoding gives the message in normal form. */
  lemma {:induction false} PacketRoundTrip(v: Version, m: ProtocolMessage)
    requires EncodePacket(v, m).Ok?
    ensures DecodePacket(v, EncodePacket(v, m).value) == Ok(Normal(v, m))
  {
    hide WritePayload, DecodePayload, Normal;
    var payload := WritePayload(m).bytes;
    HeaderRoundTrip(Kind(m), v, payload);
    PayloadRoundTrip(m, FixedHeader(Kind(m), FIXED_HEADER_LEN, v, |payload|, 0, 0));
  }

  /** Decoding gives back the identical message exactly when nothing in it is dropped by the wire. */
  lemma {:induction false} IdenticalExactlyWhenNormal(v: Version, m: ProtocolMessage)
    requires EncodePacket(v, m).Ok?
    ensures DecodePacket(v, EncodePacket(v, m).value) == Ok(m) <==> IsNormal(v, m)
  {
    PacketRoundTrip(v, m);
    hide EncodePacket, DecodePacket;
    NormalIffUnchanged(v, m);
  }

  lemma NormalIffUnchanged(v: Version, m: ProtocolMessage)
    ensures Normal(v, m) == m <==> IsNormal(v, m)
  {
  }

  /** The packet with its flags and reserved fields zeroed. */
  function ZeroFlags(packet: seq<byte>): seq<byte>
    requires |packet| >= FIXED_HEADER_LEN
  {
    packet[..12] + [0, 0, 0, 0] + packet[16..]
  }

  /** Re-encoding a decoded packet gives the same bytes, flags and reserved fields zeroed. */
  lemma {:induction false} Reencode(v: Version, packet: seq<byte>)
    ensures DecodePacket(v, packet).Ok? ==>
              |packet| >= FIXED_HEADER_LEN && EncodePacket(v, DecodePacket(v, packet).value) == Ok(ZeroFlags(packet))
  {
    hide WritePayload, DecodePayload;
    if DecodePacket(v, packet).Ok? {
      var view := DecodeFixedHeader(packet).value;
      HeaderExact(packet);
      PayloadReencode(view.header, view.payload);
    }
  }

  /** Decoding ignores the flags and reserved fields. */
  lemma {:induction false} FlagsIgnored(v: Version, packet: seq<byte>)
    requires |packet| >= FIXED_HEADER_LEN
    ensures DecodePacket(v, packet) == DecodePacket(v, ZeroFlags(packet))
  {
    var z := ZeroFlags(packet);
    assert z[0..2] == packet[0..2] && z[2..4] == packet[2..4] && z[4..8] == packet[4..8] && z[8..12] == packet[8..12];
    assert z[16..] == packet[16..];
    hide ReadPayload, FromValues;
  }

  /**
   * Exact acceptance: a byte string is decoded exactly when, up to flags and reserved fields, it is the
   * encoding of some message.
   */
  lemma {:induction false} ExactAcceptance(v: Version, packet: seq<byte>)
    ensures DecodePacket(v, packet).Ok? <==>
            |packet| >= FIXED_HEADER_LEN && exists m :: EncodePacket(v, m) == Ok(ZeroFlags(packet))
  {
    hide EncodePacket, DecodePacket, ZeroFlags;
    if DecodePacket(v, packet).Ok? {
      Reencode(v, packet);
    }
    if |packet| >= FIXED_HEADER_LEN && exists m :: EncodePacket(v, m) == Ok(ZeroFlags(packet)) {
      var m :| EncodePacket(v, m) == Ok(ZeroFlags(packet));
      PacketRoundTrip(v, m);
      FlagsIgnored(v, packet);
    }
  }

  /** Two messages share an encoding exactly when they have the same normal form. */
  lemma SameBytesSameNormalForm(v: Version, m1: ProtocolMessage, m2: ProtocolMessage)
    requires EncodePacket(v, m1).Ok? && EncodePacket(v, m2).Ok?
    ensures EncodePacket(v, m1) == EncodePacket(v, m2) <==> Normal(v, m1) == Normal(v, m2)
  {
    hide EncodePacket, DecodePacket, Normal;
    PacketRoundTrip(v, m1);
    PacketRoundTrip(v, m2);
    if Normal(v, m1) == Normal(v, m2) {
      Reencode(v, EncodePacket(v, m1).value);
      Reencode(v, EncodePacket(v, m2).value);
      EncodingIsZeroed(v, m1);
      EncodingIsZeroed(v, m2);
    }
  }

  lemma EncodingIsZeroed(v: Version, m: ProtocolMessage)
    requires EncodePacket(v, m).Ok?
    ensures var packet := EncodePacket(v, m).value;
            |packet| >= FIXED_HEADER_LEN && ZeroFlags(packet) == packet
  {
    hide WritePayload;
  }

  // ---------- the fixed header ----------

  lemma Middle(a: seq<byte>, b: seq<byte>, c: seq<byte>)
    ensures (a + b + c)[|a|..|a| + |b|] == b && (a + b + c)[|a| + |b|..] == c
  {
  }

  lemma FourParts(a: seq<byte>, b: seq<byte>, c: seq<byte>, d: seq<byte>, e: seq<byte>)
    requires |a| == |b| == 2 && |c| == |d| == 4
    ensures var s := a + b + c + d + e;
            s[0..2] == a && s[2..4] == b && s[4..8] == c && s[8..12] == d && s[12..] == e
  {
    var s := a + b + c + d + e;
    assert s[2..4] == b by {
      assert s == a + b + (c + d + e);
      Middle(a, b, c + d + e);
    }
    assert s[4..8] == c by {
      assert s == (a + b) + c + (d + e);
      Middle(a + b, c, d + e);
    }
    assert s[8..12] == d && s[12..] == e by {
      Middle(a + b + c, d, e);
    }
  }

  lemma HeaderParts(kind: MessageType, v: Version, n: u32, payload: seq<byte>)
    ensures var p := HeaderBytes(kind, v, n) + payload;
            && p[0..2] == ToLE(MessageTypeCode(kind), 2) && p[2..4] == ToLE(FIXED_HEADER_LEN, 2)
            && p[4..8] == ToLE(v, 4) && p[8..12] == ToLE(n, 4)
            && p[12..14] == ToLE(0, 2) && p[14..16] == ToLE(0, 2) && p[16..] == payload
  {
    assert ToLE(0, 2) == [0, 0];
    hide ToLE, MessageTypeCode;
    var p := HeaderBytes(kind, v, n) + payload;
    var a, b, c, d := ToLE(MessageTypeCode(kind), 2), ToLE(FIXED_HEADER_LEN, 2), ToLE(v, 4), ToLE(n, 4);
    assert p == a + b + c + d + ([0, 0, 0, 0] + payload);
    FourParts(a, b, c, d, [0, 0, 0, 0] + payload);
    assert p[12] == p[12..][0] && p[13] == p[12..][1] && p[14] == p[12..][2] && p[15] == p[12..][3];
    assert p[16..] == p[12..][4..];
  }

  lemma HeaderRoundTrip(kind: MessageType, v: Version, payload: seq<byte>)
    requires |payload| <= U32_MAX
    ensures DecodeFixedHeader(HeaderBytes(kind, v, |payload|) + payload)
         == Ok(PacketView(FixedHeader(kind, FIXED_HEADER_LEN, v, |payload|, 0, 0), payload))
  {
    HeaderParts(kind, v, |payload|, payload);
    Pow256Values();
    FromToLE(MessageTypeCode(kind), 2);
    FromToLE(FIXED_HEADER_LEN, 2);
    FromToLE(v, 4);
    FromToLE(|payload|, 4);
    FromToLE(0, 2);
    hide ToLE, FromLE, HeaderBytes;
  }

  lemma HeaderTypeExact(packet: seq<byte>)
    requires DecodeFixedHeader(packet).Ok?
    ensures var h := DecodeFixedHeader(packet).value.header;
            && packet[0..2] == ToLE(MessageTypeCode(h.messageType), 2) && packet[2..4] == ToLE(FIXED_HEADER_LEN, 2)
            && packet[4..8] == ToLE(h.protocolVersion, 4) && packet[8..12] == ToLE(h.payloadLength, 4)
  {
    IntBound(packet, 0, 2);
    IntBound(packet, 2, 2);
    IntBound(packet, 4, 4);
    IntBound(packet, 8, 4);
    hide ToLE, FromLE;
  }

  lemma HeaderExact(packet: seq<byte>)
    requires DecodeFixedHeader(packet).Ok?
    ensures var view := DecodeFixedHeader(packet).value;
            HeaderBytes(view.header.messageType, view.header.protocolVersion, view.header.payloadLength) + view.payload
            == ZeroFlags(packet)
  {
    Joined(packet, 0, 2, 4);
    Joined(packet, 0, 4, 8);
    Joined(packet, 0, 8, 12);
    hide ToLE, FromLE, MessageTypeCode;
    var h := DecodeFixedHeader(packet).value.header;
    HeaderTypeExact(packet);
    assert HeaderBytes(h.messageType, h.protocolVersion, h.payloadLength) == packet[0..12] + [0, 0, 0, 0];
  }
}
