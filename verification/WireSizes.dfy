/** The payload sizes the protocol declares, against what the encoders write. */
module WireSizes {
  import opened Bytes
  import opened Grammar
  import opened Protocol
  import opened Wire
  import opened WireTheorems

  const VIDEO_FRAME_NUMERIC_METADATA_LEN: nat := 46
  const VIDEO_FRAME_FRAGMENT_NUMERIC_METADATA_LEN: nat := 45
  const CLIENT_STATS_BASE_NUMERIC_PAYLOAD_LEN: nat := 25
  const CLIENT_STATS_HEARTBEAT_OBSERVATION_BLOCK_LEN: nat := 32

  lemma VideoFrameSize(f: VideoFrame)
    requires WritePayload(VideoFrameMsg(f)).fault.None?
    ensures |WritePayload(VideoFrameMsg(f)).bytes|
         == 2 + |f.clientId| + 2 + |f.runId| + VIDEO_FRAME_NUMERIC_METADATA_LEN + |f.payload|
  {
    WritesPrintedPayload(VideoFrameMsg(f));
    var fs, vs := Layout(VideoFrameType), ToValues(VideoFrameMsg(f));
    hide Print, Fits, PrintUpTo, WritePayload, FitAll, EncodeFault, ValidUtf8;
    assert SizeUpTo(fs, vs, 7) == 2 + |f.clientId| + 2 + |f.runId| + 28;
    assert SizeUpTo(fs, vs, 12) == SizeUpTo(fs, vs, 7) + 14 + 4 + |f.payload|;
  }

  lemma VideoFrameFragmentSize(f: VideoFrameFragment)
    requires WritePayload(VideoFrameFragmentMsg(f)).fault.None?
    ensures |WritePayload(VideoFrameFragmentMsg(f)).bytes|
         == 2 + |f.clientId| + 2 + |f.runId| + VIDEO_FRAME_FRAGMENT_NUMERIC_METADATA_LEN + |f.chunkPayload|
  {
    WritesPrintedPayload(VideoFrameFragmentMsg(f));
    var fs, vs := Layout(VideoFrameFragmentType), ToValues(VideoFrameFragmentMsg(f));
    hide Print, Fits, PrintUpTo, WritePayload, FitAll, EncodeFault, ValidUtf8;
    assert SizeUpTo(fs, vs, 5) == 2 + |f.clientId| + 2 + |f.runId| + 17;
    assert SizeUpTo(fs, vs, 12) == SizeUpTo(fs, vs, 5) + 24 + 4 + |f.chunkPayload|;
  }

  datatype ClientStatsPayloadPlan = ClientStatsPayloadPlan(
    baseNumericPayloadLen: u16, heartbeatObservationPresent: bool, heartbeatObservationBlockLen: u16)

  function ClientStatsPlan(s: ClientStats): ClientStatsPayloadPlan {
    ClientStatsPayloadPlan(CLIENT_STATS_BASE_NUMERIC_PAYLOAD_LEN, s.heartbeatObservation.Some?,
                           if s.heartbeatObservation.Some? then CLIENT_STATS_HEARTBEAT_OBSERVATION_BLOCK_LEN else 0)
  }

  lemma ClientStatsSize(s: ClientStats)
    requires WritePayload(ClientStatsMsg(s)).fault.None?
    ensures |WritePayload(ClientStatsMsg(s)).bytes|
         == 2 + |s.clientId| + 2 + |s.runId| + ClientStatsPlan(s).baseNumericPayloadLen
            + ClientStatsPlan(s).heartbeatObservationBlockLen
  {
    WritesPrintedPayload(ClientStatsMsg(s));
    var fs, vs := Layout(ClientStatsType), ToValues(ClientStatsMsg(s));
    hide Print, Fits, PrintUpTo, WritePayload, FitAll, ValidUtf8;
    assert SizeUpTo(fs, vs, 6) == 2 + |s.clientId| + 2 + |s.runId| + 24;
    assert SizeUpTo(fs, vs, 7) == SizeUpTo(fs, vs, 6) + Size(Opt(Words(4)), vs[6]);
  }

  datatype ServerNoticePayloadPlan = ServerNoticePayloadPlan(noticeTypeLen: u16, runIdByteLen: u16, messageByteLen: u16)

  function ServerNoticePlan(n: ServerNotice): Result<ServerNoticePayloadPlan, ProtocolError> {
    if |n.runId| > U16_MAX then Err(PayloadStringTooLong(|n.runId|))
    else if |n.message| > U16_MAX then Err(PayloadStringTooLong(|n.message|))
    else Ok(ServerNoticePayloadPlan(2, |n.runId|, |n.message|))
  }

  /** The first field of a notice, as it is written. */
  lemma NoticeStarts(n: ServerNotice)
    ensures var fs, vs := Layout(ServerNoticeType), ToValues(ServerNoticeMsg(n));
            && |fs| == 3 && Writable(fs, vs)
            && WriteUpTo(fs, vs, 1) == Put(Str, Chars(n.runId))
  {
    ValuesWritable(ServerNoticeMsg(n));
    hide ToLE, ValidUtf8, Put;
    var fs, vs := Layout(ServerNoticeType), ToValues(ServerNoticeMsg(n));
    assert WriteUpTo(fs, vs, 0) == Written([], None);
    assert [] + Put(Str, Chars(n.runId)).bytes == Put(Str, Chars(n.runId)).bytes;
  }

  /** The first two, when the run id fits. */
  lemma NoticeContinues(n: ServerNotice)
    requires |n.runId| <= U16_MAX
    ensures var fs, vs := Layout(ServerNoticeType), ToValues(ServerNoticeMsg(n));
            && |fs| == 3 && Writable(fs, vs)
            && WriteUpTo(fs, vs, 2).fault.None? && |WriteUpTo(fs, vs, 2).bytes| == 4 + |n.runId|
  {
    NoticeStarts(n);
    hide ToLE, ValidUtf8;
  }

  /** The plan succeeds exactly when the encoder does, fails with its error, and gives its field lengths. */
  lemma ServerNoticePlanned(n: ServerNotice)
    ensures var w := WritePayload(ServerNoticeMsg(n));
            match ServerNoticePlan(n)
            case Err(e) => w.fault == Some(e)
            case Ok(plan) =>
              w.fault.None? &&
              |w.bytes| == 2 + plan.runIdByteLen + plan.noticeTypeLen + 2 + plan.messageByteLen
  {
    NoticeStarts(n);
    hide ToLE, ValidUtf8;
    if |n.runId| <= U16_MAX {
      NoticeContinues(n);
    }
  }

  /** A payload encoder can leave part of its payload behind: here two bytes and the run id. */
  lemma PartialWriteHappens(n: ServerNotice)
    requires |n.runId| <= U16_MAX < |n.message|
    ensures WritePayload(ServerNoticeMsg(n)).fault == Some(PayloadStringTooLong(|n.message|))
    ensures |WritePayload(ServerNoticeMsg(n)).bytes| == 2 + |n.runId| + 2
  {
    NoticeContinues(n);
    hide ToLE, ValidUtf8;
  }
}
