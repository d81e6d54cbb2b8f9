/**
A video frame end to end: split by the sender, encoded packet by packet, decoded and put back together by
the receiver, whatever the order of arrival.
*/
module Delivery {
  import opened Bytes
  import opened Protocol
  import opened Wire
  import opened Fragmentation
  import opened Reassembly

  function FrameKey(frame: VideoFrame): Key {
    Key(frame.clientId, frame.runId, frame.frameId)
  }

  /** What the receiver rebuilds: fragments carry no send time, so the capture time stands in for it. */
  function Rebuilt(frame: VideoFrame): VideoFrame {
    frame.(messageType := VideoFrameType, sendTimestamp := frame.captureTimestamp, metadataReserved := [0, 0, 0],
           payloadSize := |frame.payload|)
  }

  lemma {:induction false} FragmentsSplit(policy: FragmentationPolicy, frame: VideoFrame)
    requires CanCut(policy, frame) && Fragments(policy, frame).Ok? && frame.payload != []
    ensures SplitOf(Fragments(policy, frame).value, FrameKey(frame))
    ensures Assembled(Fragments(policy, frame).value) == Rebuilt(frame)
  {
    FragmentsShape(policy, frame);
    hide Plan, Chunks, Flatten, ValidUtf8;
  }

  /** A datagram decodes to this fragment. */
  predicate Carries(v: Version, datagram: seq<byte>, f: VideoFrameFragment) {
    DecodePacket(v, datagram) == Ok(VideoFrameFragmentMsg(f))
  }

  /** The fragments a receiver hears; datagrams that are rejected or carry other messages are dropped. */
  function Heard(v: Version, datagrams: seq<seq<byte>>): seq<VideoFrameFragment>
    decreases |datagrams|
  {
    if datagrams == [] then [] else
    var m := DecodePacket(v, datagrams[|datagrams| - 1]);
    Heard(v, datagrams[..|datagrams| - 1])
    + if m.Ok? && m.value.VideoFrameFragmentMsg? then [m.value.fragment] else []
  }

  /** The fragment's datagram exists, is within `limit` bytes, and is decoded to the fragment. */
  predicate Deliverable(v: Version, f: VideoFrameFragment, limit: nat) {
    var packet := EncodePacket(v, VideoFrameFragmentMsg(f));
    packet.Ok? && |packet.value| <= limit && Carries(v, packet.value, f)
  }

  /** Every fragment of the frame is among the datagrams, at least once. */
  ghost predicate AllSent(v: Version, fs: seq<VideoFrameFragment>, datagrams: seq<seq<byte>>) {
    forall i :: 0 <= i < |fs| ==> EncodePacket(v, VideoFrameFragmentMsg(fs[i])).Ok?
                                  && EncodePacket(v, VideoFrameFragmentMsg(fs[i])).value in datagrams
  }

  /** Whatever else is among them, no datagram carries a fragment under the frame's key that is not the frame's. */
  ghost predicate NoneForged(v: Version, key: Key, fs: seq<VideoFrameFragment>, datagrams: seq<seq<byte>>) {
    forall d, f :: d in datagrams && KeyOf(f) == key && Carries(v, d, f) ==> f in fs
  }

  lemma {:induction false} HeardIff(v: Version, datagrams: seq<seq<byte>>, f: VideoFrameFragment)
    ensures f in Heard(v, datagrams) <==> exists d :: d in datagrams && Carries(v, d, f)
    decreases |datagrams|
  {
    hide DecodePacket;
    if datagrams != [] {
      var n := |datagrams| - 1;
      var before, last := datagrams[..n], datagrams[n];
      HeardIff(v, before, f);
      assert datagrams == before + [last];
      if f in Heard(v, datagrams) && f !in Heard(v, before) {
        assert Carries(v, last, f);
      }
    }
  }

  lemma {:induction false} ArrivedIff(trace: seq<VideoFrameFragment>, key: Key, i: nat)
    ensures i in Arrived(trace, key) <==> exists f :: f in trace && KeyOf(f) == key && f.chunkIndex == i
    decreases |trace|
  {
    hide KeyOf;
    if trace != [] {
      var n := |trace| - 1;
      var before, last := trace[..n], trace[n];
      ArrivedIff(before, key, i);
      assert trace == before + [last];
      if i in Arrived(trace, key) && i !in Arrived(before, key) {
        assert last in trace && KeyOf(last) == key && last.chunkIndex == i;
      }
    }
  }

  /** The fragments heard are all of the frame's, among any others. */
  lemma {:induction false} AllHeard(v: Version, key: Key, fs: seq<VideoFrameFragment>, datagrams: seq<seq<byte>>,
                                    limit: nat)
    requires SplitOf(fs, key) && AllSent(v, fs, datagrams) && NoneForged(v, key, fs, datagrams)
    requires forall i :: 0 <= i < |fs| ==> Deliverable(v, fs[i], limit)
    ensures OnlyFrom(Heard(v, datagrams), key, fs)
    ensures Arrived(Heard(v, datagrams), key) == All(|fs|)
  {
    hide EncodePacket, DecodePacket, Heard, Arrived, All, KeyOf, SameMetadata;
    var heard := Heard(v, datagrams);
    forall f | f in heard && KeyOf(f) == key
      ensures f in fs && f.chunkIndex < |fs|
    {
      HeardIff(v, datagrams, f);
      var i :| 0 <= i < |fs| && fs[i] == f;
    }
    forall i: nat
      ensures i in Arrived(heard, key) <==> i in All(|fs|)
    {
      ArrivedIff(heard, key, i);
      if i < |fs| {
        assert Deliverable(v, fs[i], limit) && KeyOf(fs[i]) == key;
        HeardIff(v, datagrams, fs[i]);
      }
    }
  }

  /**
   * End to end. Take any frame the sender can encode whole and split, and any datagrams a receiver of the same
   * version gets: each of the frame's at least once, in any order and with any repeats, and in between any others,
   * for other frames, of other kinds or rejected, as long as none carries a fragment under the frame's key that is
   * not the frame's. Every datagram of the frame is within the safe size, and the receiver completes the frame: its
   * payload and metadata, with the capture time as send time. With no repeats it completes it exactly once and
   * keeps nothing of it.
   */
  lemma {:induction false} FrameDelivered(policy: FragmentationPolicy, frame: VideoFrame, start: Frames,
                                          datagrams: seq<seq<byte>>)
    requires CanCut(policy, frame) && policy.safeMaxDatagramLen <= U32_MAX
    requires Fragments(policy, frame).Ok? && frame.payload != []
    requires EncodePacket(frame.protocolVersion, VideoFrameMsg(frame)).Ok?
    requires WellFormed(start) && FrameKey(frame) !in start
    requires AllSent(frame.protocolVersion, Fragments(policy, frame).value, datagrams)
    requires NoneForged(frame.protocolVersion, FrameKey(frame), Fragments(policy, frame).value, datagrams)
    ensures forall i :: 0 <= i < |Fragments(policy, frame).value| ==>
              Deliverable(frame.protocolVersion, Fragments(policy, frame).value[i], policy.safeMaxDatagramLen)
    ensures var heard := Heard(frame.protocolVersion, datagrams);
            var (state, reports) := Run(start, heard);
            var out := Emitted(reports, FrameKey(frame));
            && out != [] && (forall f :: f in out ==> f == Rebuilt(frame))
            && (NoRepeats(heard, FrameKey(frame)) ==> out == [Rebuilt(frame)] && FrameKey(frame) !in state)
  {
    var fs, v, key := Fragments(policy, frame).value, frame.protocolVersion, FrameKey(frame);
    hide EncodePacket, DecodePacket, Fragments, Run, Emitted, SplitOf, Assembled, Rebuilt, AllSent, NoneForged, Heard,
         Arrived;
    forall i | 0 <= i < |fs|
      ensures Deliverable(v, fs[i], policy.safeMaxDatagramLen)
    {
      FragmentDatagram(policy, frame, i);
    }
    FragmentsSplit(policy, frame);
    AllHeard(v, key, fs, datagrams, policy.safeMaxDatagramLen);
    DeliveredWhenAllArrived(start, Heard(v, datagrams), key, fs);
    if NoRepeats(Heard(v, datagrams), key) {
      DeliveredExactlyOnce(start, Heard(v, datagrams), key, fs);
    }
  }
}
