/**
 * How the shared line (stm32/src/main.rs) recovers. Bytes other than zero cost the frame they run
 * into and nothing else; a zero where a frame should begin is read as the length of a legacy frame, and
 * the wrong checksum that follows throws away everything buffered.
 */
module LineRecovery {
  import opened Bytes
  import opened Cobs
  import opened Frame
  import opened Defrag
  import opened Receiver
  import opened Delivery
  import opened Legacy
  import opened Demux
  import opened DualStack

  // ── Bytes other than zero ────────────────────────────────────────────────

  /** Noise and the RDP frame it runs into are one chunk. */
  lemma NoiseJoinsFrame(noise: seq<byte>, f: Frame)
    requires Sendable(f) && ZeroFree(noise) && |noise| + |StuffedFrame(f)| < RX_LEN
    ensures Proper(Noise(noise + StuffedFrame(f)))
    ensures noise + PacketBytes(RdpPacket(f)) == PacketBytes(Noise(noise + StuffedFrame(f)))
  {
    FrameSurvives(f, SCRATCH_LEN);
    assert noise + (StuffedFrame(f) + [DELIMITER]) == noise + StuffedFrame(f) + [DELIMITER];
  }

  /** Served after noise: what the chunk makes of it, then every packet exactly, and nothing is thrown away. */
  lemma PacketsServedAfterNoise(a: Assembly, chunk: seq<byte>, packets: seq<Packet>, pieces: seq<seq<byte>>)
    requires Proper(Noise(chunk)) && AllProper(packets)
    requires Flatten(pieces) == chunk + [DELIMITER] + TrafficBytes(packets)
    ensures var (next, m) := HandleChunk(a, chunk, SCRATCH_LEN, DEVICE_MESSAGE_LEN);
      var (end, requests) := HandledAll(next, packets);
      ServeReads(a, [], pieces) == Demuxed(AsRequest(m) + requests, [], end) && NeverDropped(a, [], pieces)
  {
    hide HandleChunk, ServeReads, NeverDropped;
    var all := [Noise(chunk)] + packets;
    assert all[0] == Noise(chunk) && all[1..] == packets;
    assert TrafficBytes(all) == PacketBytes(Noise(chunk)) + TrafficBytes(packets);
    assert [] + Flatten(pieces) == TrafficBytes(all);
    assert Started([], all) by {
      assert [] < PacketBytes(all[0]);
    }
    ReadsServeTraffic(a, [], pieces, all);
  }

  /**
   * Bytes other than zero in front of an RDP frame cost at most that frame: everything behind it is
   * served exactly, however the reads fall. A frame has at most 523 bytes, so 500 bytes are never too many.
   */
  lemma NoiseCostsOneFrame(a: Assembly, noise: seq<byte>, f: Frame, packets: seq<Packet>, pieces: seq<seq<byte>>)
    requires Sendable(f) && ZeroFree(noise) && |noise| + |StuffedFrame(f)| < RX_LEN && AllProper(packets)
    requires Flatten(pieces) == noise + PacketBytes(RdpPacket(f)) + TrafficBytes(packets)
    ensures var (next, m) := HandleChunk(a, noise + StuffedFrame(f), SCRATCH_LEN, DEVICE_MESSAGE_LEN);
      var (end, requests) := HandledAll(next, packets);
      ServeReads(a, [], pieces) == Demuxed(AsRequest(m) + requests, [], end) && NeverDropped(a, [], pieces)
  {
    hide HandleChunk, ServeReads, NeverDropped, StuffedFrame;
    NoiseJoinsFrame(noise, f);
    PacketsServedAfterNoise(a, noise + StuffedFrame(f), packets, pieces);
  }

  lemma AsRequestsApart(x: seq<Message>, y: seq<Message>)
    ensures AsRequests(x) == AsRequests(y) <==> x == y
  {
    if AsRequests(x) == AsRequests(y) {
      assert |x| == |AsRequests(x)| == |y|;
      forall i | 0 <= i < |x| ensures x[i] == y[i] {
        assert AsRequests(x)[i] == AsRequests(y)[i];
      }
    }
  }

  /** A complete message from any state: idle afterwards, and served alone exactly if it is taken whole. */
  lemma MessageServed(a: Assembly, m: Message)
    ensures AllProper(PacketsFor(RdpRequest(m)))
    ensures var (end, served) := HandledAll(a, PacketsFor(RdpRequest(m)));
      Idle(end) && (served == [RdpRequest(m)] <==> TakenWhole(a, m, DEVICE_MESSAGE_LEN))
  {
    hide TakenWhole, FedAll, HandledAll, MessageFrames;
    var frames := MessageFrames(0, m.number, m.payload);
    MessageFramesSendable(0, m.number, m.payload);
    RdpPacketsHandled(a, frames);
    MessageEndsIdle(a, m, DEVICE_MESSAGE_LEN);
    assert AsRequests([m]) == [RdpRequest(m)];
    AsRequestsApart(FedAll(a, frames, DEVICE_MESSAGE_LEN).1, [m]);
  }

  /** What follows damage: frames left of a message it cut, one complete message, and further requests. */
  function Following(leftover: seq<Frame>, m: Message, requests: seq<Request>): seq<Packet> {
    AsRdpPackets(leftover) + PacketsFor(RdpRequest(m)) + PacketsForAll(requests)
  }

  lemma RdpPacketProper(frames: seq<Frame>, i: nat)
    requires i < |frames| && AllSendable(frames)
    ensures Proper(AsRdpPackets(frames)[i])
  {
  }

  lemma FollowingHandled(a: Assembly, leftover: seq<Frame>, m: Message, requests: seq<Request>)
    requires AllSendable(leftover) && AllFitDevice(requests)
    ensures AllProper(Following(leftover, m, requests))
    ensures var (met, early) := HandledAll(a, AsRdpPackets(leftover));
      var served := HandledAll(met, PacketsFor(RdpRequest(m))).1;
      var (end, all) := HandledAll(a, Following(leftover, m, requests));
      Idle(end) && all == early + served + requests
  {
    hide HandledAll, PacketsFor, PacketsForAll, AsRdpPackets;
    var x, y, z := AsRdpPackets(leftover), PacketsFor(RdpRequest(m)), PacketsForAll(requests);
    var (met, early) := HandledAll(a, x);
    MessageServed(met, m);
    var idle := HandledAll(met, y).0;
    AllRequestsServed(idle, requests);
    HandledAllAppend(a, x, y);
    HandledAllAppend(a, x + y, z);
    forall i | 0 <= i < |x| ensures Proper(x[i]) {
      RdpPacketProper(leftover, i);
    }
  }

  /**
   * After damage in any reassembly state: whatever the damaged chunk and the frames left of its message
   * amount to, one complete message makes reassembly idle, and everything behind it is served exactly
   * and in order. The message itself is served exactly if the state it meets takes it whole.
   */
  lemma RequestsServedAfterNoise(a: Assembly, chunk: seq<byte>, leftover: seq<Frame>, m: Message, requests: seq<Request>,
                                 pieces: seq<seq<byte>>)
    requires Proper(Noise(chunk)) && AllSendable(leftover) && AllFitDevice(requests)
    ensures AllProper(Following(leftover, m, requests))
    ensures Flatten(pieces) == chunk + [DELIMITER] + TrafficBytes(Following(leftover, m, requests)) ==>
      var (next, damaged) := HandleChunk(a, chunk, SCRATCH_LEN, DEVICE_MESSAGE_LEN);
      var (met, early) := HandledAll(next, AsRdpPackets(leftover));
      var served := HandledAll(met, PacketsFor(RdpRequest(m))).1;
      var d := ServeReads(a, [], pieces);
      && d.requests == AsRequest(damaged) + early + served + requests && d.rest == [] && Idle(d.assembly)
      && (served == [RdpRequest(m)] <==> TakenWhole(met, m, 1024))
  {
    hide HandleChunk, HandledAll, PacketsFor, Following, ServeReads, NeverDropped, TakenWhole;
    var (next, damaged) := HandleChunk(a, chunk, SCRATCH_LEN, DEVICE_MESSAGE_LEN);
    var (met, early) := HandledAll(next, AsRdpPackets(leftover));
    FollowingHandled(next, leftover, m, requests);
    MessageServed(met, m);
    if Flatten(pieces) == chunk + [DELIMITER] + TrafficBytes(Following(leftover, m, requests)) {
      PacketsServedAfterNoise(a, chunk, Following(leftover, m, requests), pieces);
      var served := HandledAll(met, PacketsFor(RdpRequest(m))).1;
      assert AsRequest(damaged) + (early + served + requests) == AsRequest(damaged) + early + served + requests;
    }
  }

  // ── A zero where a frame should begin ────────────────────────────────────

  /**
   * A zero in front of `s` makes the next byte the length of a legacy payload: the task waits until that
   * many bytes and a checksum have come, and then takes them for a frame or throws the whole buffer away.
   */
  lemma StrayZero(a: Assembly, s: seq<byte>)
    requires s != []
    ensures var buf, n: nat := [DELIMITER] + s, s[0];
      NextFrame(a, buf) ==
      if |s| < n + 5 then Leave(buf)
      else if Crc32(s[1..n + 1]) == FromBe32(s[n + 1], s[n + 2], s[n + 3], s[n + 4])
      then Take(n + 6, [LegacyRequest(s[1..n + 1])], a)
      else Leave([])
  {
    hide Crc32, FromBe32;
    var buf, n: nat := [DELIMITER] + s, s[0];
    assert buf[0] == DELIMITER && buf[1] == n;
    assert From16(n, 0) == n;
    if |s| >= n + 5 {
      assert buf[2..2 + n] == s[1..n + 1];
      assert buf[2 + n] == s[n + 1] && buf[3 + n] == s[n + 2] && buf[4 + n] == s[n + 3] && buf[5 + n] == s[n + 4];
    }
  }

  lemma OneByteBlock(input: seq<byte>)
    requires |input| >= 2 && input[0] != 0 && input[1] == 0
    ensures Encoded(input) == [2, input[0]] + Encoded(input[2..])
  {
    assert input[1..][0] == 0 && input[1..][1..] == input[2..];
    assert EncodedFrom([input[0]], input[1..]) == Block([input[0]]) + EncodedFrom([], input[2..]);
    assert [] + [input[0]] == [input[0]];
  }

  /** The stuffed form of a frame without flags begins with a block of its version alone. */
  lemma StuffedBeginning(f: Frame)
    requires Sendable(f) && f.header.flags == 0
    ensures var s := StuffedFrame(f); |s| >= 9 && s[0] == 2 && s[1] == VERSION
  {
    var raw := RawFrame(f);
    EncodedLength(raw);
    OneByteBlock(raw);
  }

  /**
   * A stray zero in front of a complete frame without flags is not waited on: eight bytes go to the
   * legacy handler exactly if four bytes of the frame happen to be the checksum of two others, and
   * otherwise the whole buffer is thrown away, frames behind included.
   */
  lemma StrayZeroDropsIff(a: Assembly, f: Frame, later: seq<byte>)
    requires Sendable(f) && f.header.flags == 0
    ensures var s := StuffedFrame(f);
      |s| >= 9 &&
      NextFrame(a, [DELIMITER] + PacketBytes(RdpPacket(f)) + later) ==
      if Crc32([VERSION, s[2]]) == FromBe32(s[3], s[4], s[5], s[6]) then Take(8, [LegacyRequest([VERSION, s[2]])], a)
      else Leave([])
  {
    hide NextFrame, Crc32, FromBe32, StuffedFrame, FromBe32;
    StuffedBeginning(f);
    var s := StuffedFrame(f);
    var buf := s + [DELIMITER] + later;
    assert [DELIMITER] + PacketBytes(RdpPacket(f)) + later == [DELIMITER] + buf;
    assert buf[1..3] == [VERSION, s[2]];
    StrayZero(a, buf);
  }

  lemma ChecksumOfOneTwo()
    ensures Crc32([1, 2]) == 0xB6CC_4292
  {
    hide ByteStep32, Register32;
    EmptyRegister();
    OneByteMore32([], 1);
    OneByteMore32([1], 2);
    assert [] + [1] == [1] && [1] + [2] == [1, 2];
    Stepped32(0xFFFF_FFFF, 1, 0xFFFF_FFFE, 0x5AFA_20E4);
    Stepped32(0x5AFA_20E4, 2, 0x5AFA_20E6, 0x4933_BD6D);
  }

  lemma TopByteDiffers(b1: bv32, b2: bv32, b3: bv32)
    requires b1 <= 0xFF && b2 <= 0xFF && b3 <= 0xFF
    ensures (1 << 24) | (b1 << 16) | (b2 << 8) | b3 != 0xB6CC_4292
  {
  }

  lemma NotThatChecksum(b1: byte, b2: byte, b3: byte)
    ensures FromBe32(1, b1, b2, b3) != Crc32([VERSION, 2])
  {
    hide Crc32;
    ChecksumOfOneTwo();
    TopByteDiffers((b1 as bv8) as bv32, (b2 as bv8) as bv32, (b3 as bv8) as bv32);
  }

  lemma FirstRequestBytes(payload: seq<byte>)
    requires |payload| <= MAX_PAYLOAD_LEN
    ensures var f := Frame(FrameHeader(VERSION, 0, 1), payload);
      MessageBytes(0, 1, payload) == PacketBytes(RdpPacket(f)) && [2, 1, 2, 1] <= StuffedFrame(f)
  {
    var f := Frame(FrameHeader(VERSION, 0, 1), payload);
    var raw, s := RawFrame(f), StuffedFrame(f);
    OneByteBlock(raw);
    OneByteBlock(raw[2..]);
    assert [f][1..] == [] && StreamOf([f]) == s + [DELIMITER] + StreamOf([]);
  }

  /** A stray zero in front of the first request of a session throws it away, whatever it asks for and whatever follows. */
  lemma StrayZeroDropsFirstRequest(a: Assembly, payload: seq<byte>, later: seq<byte>)
    requires |payload| <= MAX_PAYLOAD_LEN
    ensures NextFrame(a, [DELIMITER] + MessageBytes(0, 1, payload) + later) == Leave([])
  {
    hide NextFrame, Crc32, FromBe32, StuffedFrame, PacketBytes, MessageBytes;
    var f := Frame(FrameHeader(VERSION, 0, 1), payload);
    var s := StuffedFrame(f);
    FirstRequestBytes(payload);
    StuffedBeginning(f);
    assert s[2] == 2 && s[3] == 1;
    NotThatChecksum(s[4], s[5], s[6]);
    StrayZeroDropsIff(a, f, later);
  }

  // ── After the buffer has been thrown away ────────────────────────────────

  lemma ReadThrownAway(a: Assembly, data: seq<byte>)
    requires data != [] && NextFrame(a, data) == Leave([])
    ensures AfterRead(a, [], data) == Demuxed([], [], a)
  {
    hide NextFrame;
    assert [] + data == data;
  }

  /**
   * A read that ends with everything thrown away costs exactly what came in it: packets of later
   * reads, beginning at once, are all served.
   */
  lemma ServedAfterDrop(a: Assembly, data: seq<byte>, packets: seq<Packet>, pieces: seq<seq<byte>>)
    requires data != [] && NextFrame(a, data) == Leave([]) && AllProper(packets) && Flatten(pieces) == TrafficBytes(packets)
    ensures var (end, requests) := HandledAll(a, packets);
      ServeReads(a, [], [data] + pieces) == Demuxed(requests, [], end)
  {
    hide NextFrame, AfterRead, PacketBytes, HandledAll, NeverDropped;
    ReadThrownAway(a, data);
    assert [] + Flatten(pieces) == Flatten(pieces);
    assert ([data] + pieces)[1..] == pieces;
    if packets != [] {
      PacketLength(packets[0]);
    }
    ReadsServeTraffic(a, [], pieces, packets);
    BeforeNothing(ServeReads(a, [], pieces));
  }

  lemma TailZeroFree(s: seq<byte>, n: nat)
    requires ZeroFree(s) && n <= |s|
    ensures ZeroFree(s[n..]) && (s + [DELIMITER])[n..] == s[n..] + [DELIMITER]
  {
    assert forall i | 0 <= i < |s[n..]| :: s[n..][i] == s[n + i];
  }

  /** The rest of a frame that was cut inside its stuffed bytes is noise: that frame alone is lost. */
  lemma FrameTailIsNoise(f: Frame, n: nat)
    requires Sendable(f) && n < |StuffedFrame(f)|
    ensures Proper(Noise(StuffedFrame(f)[n..]))
    ensures PacketBytes(RdpPacket(f))[n..] == PacketBytes(Noise(StuffedFrame(f)[n..]))
  {
    hide StuffedFrame, ZeroFree;
    FrameSurvives(f, SCRATCH_LEN);
    TailZeroFree(StuffedFrame(f), n);
  }
  /** Emptied inside a frame, the task loses that frame alone: every packet behind it is served exactly. */
  lemma ServedAfterCutFrame(a: Assembly, f: Frame, n: nat, packets: seq<Packet>, pieces: seq<seq<byte>>)
    requires Sendable(f) && n < |StuffedFrame(f)| && AllProper(packets)
    requires Flatten(pieces) == PacketBytes(RdpPacket(f))[n..] + TrafficBytes(packets)
    ensures var (next, m) := HandleChunk(a, StuffedFrame(f)[n..], SCRATCH_LEN, DEVICE_MESSAGE_LEN);
      var (end, requests) := HandledAll(next, packets);
      ServeReads(a, [], pieces) == Demuxed(AsRequest(m) + requests, [], end) && NeverDropped(a, [], pieces)
  {
    hide HandleChunk, ServeReads, NeverDropped, StuffedFrame;
    FrameTailIsNoise(f, n);
    PacketsServedAfterNoise(a, StuffedFrame(f)[n..], packets, pieces);
  }
}
