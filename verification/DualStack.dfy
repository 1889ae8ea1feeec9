/**
 * Two protocols on one line: any mixture of RDP frames, legacy frames and noise up to a delimiter,
 * cut into any reads, is split exactly at its frame boundaries and served in order.
 */
module DualStack {
  import opened Bytes
  import opened Cobs
  import opened Frame
  import opened Defrag
  import opened Receiver
  import opened Delivery
  import opened Legacy
  import opened Demux

  datatype Packet = RdpPacket(frame: Frame) | LegacyPacket(payload: seq<byte>) | Noise(chunk: seq<byte>)

  /**
   * Host requests are RDP frames as the sender builds them and legacy payloads below 256 bytes. Noise
   * is any bytes but zeros, up to the next delimiter: the front of the frame it swallows included.
   */
  ghost predicate Proper(p: Packet) {
    match p
    case RdpPacket(f) => Sendable(f)
    case LegacyPacket(payload) => |payload| < 0x100
    case Noise(chunk) => chunk != [] && ZeroFree(chunk) && |chunk| < RX_LEN
  }

  ghost predicate AllProper(packets: seq<Packet>) {
    forall i | 0 <= i < |packets| :: Proper(packets[i])
  }

  ghost function PacketBytes(p: Packet): seq<byte>
    requires Proper(p)
  {
    match p
    case RdpPacket(f) => StuffedFrame(f) + [DELIMITER]
    case LegacyPacket(payload) => LegacyFrame(payload)
    case Noise(chunk) => chunk + [DELIMITER]
  }

  ghost function TrafficBytes(packets: seq<Packet>): seq<byte>
    requires AllProper(packets)
  {
    if packets == [] then [] else PacketBytes(packets[0]) + TrafficBytes(packets[1..])
  }

  lemma PacketLength(p: Packet)
    requires Proper(p)
    ensures 0 < |PacketBytes(p)| <= RX_LEN
  {
    if p.RdpPacket? {
      FrameSurvives(p.frame, SCRATCH_LEN);
    }
  }

  // ── What each packet asks for ────────────────────────────────────────────

  function Handled(a: Assembly, p: Packet): (Assembly, seq<Request>) {
    match p
    case RdpPacket(f) =>
      var (next, r) := Fed(a, f, DEVICE_MESSAGE_LEN);
      (next, if r.Complete? then [RdpRequest(Message(f.header.number, r.payload))] else [])
    case LegacyPacket(payload) => (a, [LegacyRequest(payload)])
    case Noise(chunk) =>
      var (next, m) := HandleChunk(a, chunk, SCRATCH_LEN, DEVICE_MESSAGE_LEN);
      (next, AsRequest(m))
  }

  function HandledAll(a: Assembly, packets: seq<Packet>): (Assembly, seq<Request>)
    decreases |packets|
  {
    if packets == [] then (a, []) else
    var (next, now) := Handled(a, packets[0]);
    var (end, later) := HandledAll(next, packets[1..]);
    (end, now + later)
  }

  // ── The first byte tells the protocols apart ─────────────────────────────

  lemma PacketTaken(a: Assembly, p: Packet, tail: seq<byte>)
    requires Proper(p)
    ensures PacketBytes(p) != []
    ensures var (next, requests) := Handled(a, p);
      NextFrame(a, PacketBytes(p) + tail) == Take(|PacketBytes(p)|, requests, next)
  {
    match p
    case RdpPacket(f) =>
      FrameSurvives(f, SCRATCH_LEN);
      PositionOfDelimiter(StuffedFrame(f), tail);
      var buf := StuffedFrame(f) + [DELIMITER] + tail;
      assert buf[..|StuffedFrame(f)|] == StuffedFrame(f);
      assert buf[0] == StuffedFrame(f)[0];
    case LegacyPacket(payload) =>
      DecodeLegacyFrame(payload, tail);
    case Noise(chunk) =>
      PositionOfDelimiter(chunk, tail);
      var buf := chunk + [DELIMITER] + tail;
      assert buf[..|chunk|] == chunk && buf[0] == chunk[0];
  }

  lemma StuffedIsChunk(f: Frame)
    requires |f.payload| < 0x1_0000
    ensures ZeroFree(StuffedFrame(f)) && StuffedFrame(f) != []
  {
    EncodedZeroFree(RawFrame(f));
    EncodedLength(RawFrame(f));
  }

  /** A frame of its own is served with up to 592 bytes of payload, though none is built over 512; a larger one is passed over. */
  lemma FrameServedIffUnstuffed(a: Assembly, f: Frame, tail: seq<byte>)
    requires f.header.version == 1 && |f.payload| < 0x1_0000 && !IsFragment(f.header.flags)
    ensures NextFrame(a, StuffedFrame(f) + [0] + tail) ==
      if |f.payload| <= 592 then Take(|StuffedFrame(f)| + 1, [RdpRequest(Message(f.header.number, f.payload))], EMPTY)
      else Take(|StuffedFrame(f)| + 1, [], a)
  {
    hide StuffedFrame, DecodedFrame;
    StuffedIsChunk(f);
    DecodedIffRoom(f, SCRATCH_LEN);
    PositionOfDelimiter(StuffedFrame(f), tail);
    var buf := StuffedFrame(f) + [DELIMITER] + tail;
    assert buf[..|StuffedFrame(f)|] == StuffedFrame(f) && buf[0] == StuffedFrame(f)[0];
  }

  /** A legacy frame reaches the legacy handler exactly if its payload is shorter than 256 bytes. */
  lemma LegacyRoutedIffShort(a: Assembly, payload: seq<byte>, tail: seq<byte>)
    requires |payload| < 0x1_0000
    ensures NextFrame(a, LegacyFrame(payload) + tail) == Take(|LegacyFrame(payload)|, [LegacyRequest(payload)], a) <==>
            |payload| < 0x100
  {
    hide DecodeLegacy, HandleChunk, Crc32, Be32;
    DecodeLegacyFrame(payload, tail);
    var buf := LegacyFrame(payload) + tail;
    assert buf[0] == Hi(|payload|);
    if |payload| >= 0x100 && NextFrame(a, buf).Take? && NextFrame(a, buf).requests != [] {
      assert NextFrame(a, buf).requests[0].RdpRequest?;
    }
  }

  lemma PartialPacketLeft(a: Assembly, p: Packet, n: nat)
    requires Proper(p) && 0 < n < |PacketBytes(p)|
    ensures NextFrame(a, PacketBytes(p)[..n]) == Leave(PacketBytes(p)[..n])
  {
    PacketLength(p);
    var buf := PacketBytes(p)[..n];
    match p
    case RdpPacket(f) =>
      FrameSurvives(f, SCRATCH_LEN);
      assert buf == StuffedFrame(f)[..n];
      NoDelimiterIn(buf);
    case LegacyPacket(payload) =>
      DecodeLegacyPrefix(payload, n);
    case Noise(chunk) =>
      assert buf == chunk[..n];
      NoDelimiterIn(buf);
  }

  // ── Any prefix of the traffic ────────────────────────────────────────────

  /** Holds of the unprocessed bytes between reads: the beginning of the next packet. */
  ghost predicate Started(rx: seq<byte>, packets: seq<Packet>)
    requires AllProper(packets)
  {
    if packets == [] then rx == [] else rx < PacketBytes(packets[0])
  }

  /**
   * The turns of the inner loop throw no buffered byte away: each takes a frame off, or leaves the
   * whole buffer as it is, with room to spare. The branches that empty the buffer, on overflow or
   * on a wrong checksum, are not taken.
   */
  ghost predicate NothingDropped(a: Assembly, buf: seq<byte>)
    decreases |buf|
  {
    buf == [] ||
    match NextFrame(a, buf)
    case Leave(rest) => rest == buf && |buf| < RX_LEN
    case Take(n, _, next) => NothingDropped(next, buf[n..])
  }

  /** `k` packets are complete in `s`; they are handled and the beginning of the next one is kept. */
  ghost predicate SplitsAt(a: Assembly, packets: seq<Packet>, s: seq<byte>, k: nat)
    requires AllProper(packets)
  {
    && k <= |packets| && NothingDropped(a, s)
    && var d := Process(a, s);
       && (d.assembly, d.requests) == HandledAll(a, packets[..k])
       && s == TrafficBytes(packets[..k]) + d.rest
       && Started(d.rest, packets[k..])
  }

  lemma {:induction false} NothingComplete(a: Assembly, packets: seq<Packet>, s: seq<byte>)
    requires packets != [] && AllProper(packets)
    requires s <= TrafficBytes(packets) && |s| < |PacketBytes(packets[0])|
    ensures SplitsAt(a, packets, s, 0)
  {
    hide PacketBytes;
    var bytes := PacketBytes(packets[0]);
    assert s == bytes[..|s|];
    PacketLength(packets[0]);
    if s != [] {
      PartialPacketLeft(a, packets[0], |s|);
    }
    assert packets[..0] == [] && packets[0..] == packets;
    assert [] + s == s;
  }

  lemma {:induction false} OnePacketProcessed(a: Assembly, p: Packet, later: seq<byte>)
    requires Proper(p)
    ensures var (next, requests) := Handled(a, p);
      && Process(a, PacketBytes(p) + later) == Before(requests, Process(next, later))
      && (NothingDropped(next, later) ==> NothingDropped(a, PacketBytes(p) + later))
  {
    hide PacketBytes, Handled, NextFrame;
    PacketTaken(a, p, later);
    var bytes := PacketBytes(p);
    assert (bytes + later)[|bytes|..] == later;
  }

  lemma {:induction false} OnePacketThenSplit(a: Assembly, packets: seq<Packet>, later: seq<byte>, j: nat)
    requires packets != [] && AllProper(packets)
    requires SplitsAt(Handled(a, packets[0]).0, packets[1..], later, j)
    ensures SplitsAt(a, packets, PacketBytes(packets[0]) + later, j + 1)
  {
    hide PacketBytes, Handled, Process, NothingDropped, Started;
    var bytes, k, first := PacketBytes(packets[0]), j + 1, packets[..j + 1];
    OnePacketProcessed(a, packets[0], later);
    assert first[0] == packets[0] && first[1..] == packets[1..][..j] && packets[k..] == packets[1..][j..];
    var d := Process(Handled(a, packets[0]).0, later);
    assert bytes + (TrafficBytes(first[1..]) + d.rest) == bytes + TrafficBytes(first[1..]) + d.rest;
  }

  lemma {:induction false} PrefixSplits(a: Assembly, packets: seq<Packet>, s: seq<byte>) returns (k: nat)
    requires AllProper(packets) && s <= TrafficBytes(packets)
    ensures SplitsAt(a, packets, s, k)
    decreases |packets|
  {
    hide PacketBytes, Handled;
    if packets == [] {
      k := 0;
    } else {
      var bytes := PacketBytes(packets[0]);
      if |s| < |bytes| {
        k := 0;
        NothingComplete(a, packets, s);
      } else {
        var later := s[|bytes|..];
        assert s == bytes + later;
        var j := PrefixSplits(Handled(a, packets[0]).0, packets[1..], later);
        k := j + 1;
        OnePacketThenSplit(a, packets, later, j);
      }
    }
  }

  // ── Any cutting into pieces ───────────────────────────────────────────────

  /** The task from unprocessed bytes `rx` on, through the given reads. */
  function ServeReads(a: Assembly, rx: seq<byte>, pieces: seq<seq<byte>>): Demuxed
    decreases |pieces|
  {
    if pieces == [] then Demuxed([], rx, a) else
    var d := AfterRead(a, rx, pieces[0]);
    Before(d.requests, ServeReads(d.assembly, d.rest, pieces[1..]))
  }

  /** Over all reads: no turn drops bytes, and the test for a full buffer after each read fails. */
  ghost predicate NeverDropped(a: Assembly, rx: seq<byte>, pieces: seq<seq<byte>>)
    decreases |pieces|
  {
    pieces == [] ||
    var d := Process(a, rx + pieces[0]);
    && NothingDropped(a, rx + pieces[0])
    && |d.rest| < RX_LEN && d == AfterRead(a, rx, pieces[0])
    && NeverDropped(d.assembly, d.rest, pieces[1..])
  }

  lemma {:induction false} HandledAllAppend(a: Assembly, x: seq<Packet>, y: seq<Packet>)
    ensures var (mid, early) := HandledAll(a, x);
      var (end, late) := HandledAll(mid, y);
      HandledAll(a, x + y) == (end, early + late)
    decreases |x|
  {
    hide Handled;
    if x == [] {
      assert x + y == y;
      assert [] + HandledAll(a, y).1 == HandledAll(a, y).1;
    } else {
      assert (x + y)[1..] == x[1..] + y;
      var (next, now) := Handled(a, x[0]);
      HandledAllAppend(next, x[1..], y);
      var (mid, early) := HandledAll(next, x[1..]);
      var late := HandledAll(mid, y).1;
      assert now + (early + late) == now + early + late;
    }
  }

  lemma {:induction false} TrafficAppend(x: seq<Packet>, y: seq<Packet>)
    requires AllProper(x) && AllProper(y)
    ensures AllProper(x + y) && TrafficBytes(x + y) == TrafficBytes(x) + TrafficBytes(y)
    decreases |x|
  {
    hide PacketBytes;
    if x == [] {
      assert x + y == y;
    } else {
      assert (x + y)[1..] == x[1..] + y;
      TrafficAppend(x[1..], y);
    }
  }

  lemma StartedIsShort(rx: seq<byte>, packets: seq<Packet>)
    requires AllProper(packets) && Started(rx, packets)
    ensures |rx| < RX_LEN
    ensures rx == TrafficBytes(packets) ==> packets == []
  {
    if packets != [] {
      PacketLength(packets[0]);
    }
  }

  lemma TrafficSplits(packets: seq<Packet>, k: nat)
    requires AllProper(packets) && k <= |packets|
    ensures TrafficBytes(packets) == TrafficBytes(packets[..k]) + TrafficBytes(packets[k..])
  {
    assert packets == packets[..k] + packets[k..];
    TrafficAppend(packets[..k], packets[k..]);
  }

  lemma CancelPrefix(x: seq<byte>, y: seq<byte>, z: seq<byte>, w: seq<byte>)
    requires x + y + z == x + w
    ensures y + z == w
  {
    assert x + (y + z) == x + w;
    assert (x + (y + z))[|x|..] == y + z && (x + w)[|x|..] == w;
  }

  /** One read hands over exactly the packets it completes. */
  lemma OneRead(a: Assembly, rx: seq<byte>, data: seq<byte>, later: seq<byte>, packets: seq<Packet>) returns (k: nat)
    requires AllProper(packets) && rx + data + later == TrafficBytes(packets)
    ensures k <= |packets|
    ensures var d := Process(a, rx + data);
      && AfterRead(a, rx, data) == d
      && (d.assembly, d.requests) == HandledAll(a, packets[..k])
      && Started(d.rest, packets[k..])
      && d.rest + later == TrafficBytes(packets[k..])
      && NothingDropped(a, rx + data)
  {
    hide PacketBytes, Handled;
    var s := rx + data;
    assert s <= TrafficBytes(packets);
    k := PrefixSplits(a, packets, s);
    var rest := Process(a, s).rest;
    StartedIsShort(rest, packets[k..]);
    TrafficSplits(packets, k);
    CancelPrefix(TrafficBytes(packets[..k]), rest, later, TrafficBytes(packets[k..]));
  }

  /**
   * However the bytes are cut into reads, every packet is handed to the right protocol handler,
   * in order, nothing is left over and no byte is thrown away.
   */
  lemma {:induction false} ReadsServeTraffic(a: Assembly, rx: seq<byte>, pieces: seq<seq<byte>>, packets: seq<Packet>)
    requires AllProper(packets) && rx + Flatten(pieces) == TrafficBytes(packets) && Started(rx, packets)
    ensures var (end, requests) := HandledAll(a, packets);
      ServeReads(a, rx, pieces) == Demuxed(requests, [], end)
    ensures NeverDropped(a, rx, pieces)
    decreases |pieces|
  {
    hide PacketBytes, Handled, Process, NothingDropped;
    StartedIsShort(rx, packets);
    if pieces == [] {
      assert rx + Flatten(pieces) == rx;
    } else {
      var later := Flatten(pieces[1..]);
      assert rx + pieces[0] + later == rx + Flatten(pieces);
      var k := OneRead(a, rx, pieces[0], later, packets);
      var d := Process(a, rx + pieces[0]);
      StartedIsShort(d.rest, packets[k..]);
      ReadsServeTraffic(d.assembly, d.rest, pieces[1..], packets[k..]);
      HandledAllAppend(a, packets[..k], packets[k..]);
      assert packets[..k] + packets[k..] == packets;
    }
  }

  // ── Whole messages ───────────────────────────────────────────────────────

  predicate FitsDevice(r: Request) {
    match r
    case RdpRequest(m) => |m.payload| <= 1024
    case LegacyRequest(payload) => |payload| < 0x100
  }

  function AsRdpPackets(frames: seq<Frame>): (packets: seq<Packet>)
    ensures |packets| == |frames| && forall i | 0 <= i < |frames| :: packets[i] == RdpPacket(frames[i])
  {
    seq(|frames|, i requires 0 <= i < |frames| => RdpPacket(frames[i]))
  }

  /** What the host sends to make one request. */
  function PacketsFor(r: Request): seq<Packet> {
    match r
    case RdpRequest(m) => AsRdpPackets(MessageFrames(0, m.number, m.payload))
    case LegacyRequest(payload) => [LegacyPacket(payload)]
  }

  function PacketsForAll(requests: seq<Request>): seq<Packet> {
    if requests == [] then [] else PacketsFor(requests[0]) + PacketsForAll(requests[1..])
  }

  ghost predicate AllFitDevice(requests: seq<Request>) {
    forall i | 0 <= i < |requests| :: FitsDevice(requests[i])
  }

  function AsRequests(messages: seq<Message>): (requests: seq<Request>)
    ensures |requests| == |messages| && forall i | 0 <= i < |messages| :: requests[i] == RdpRequest(messages[i])
  {
    seq(|messages|, i requires 0 <= i < |messages| => RdpRequest(messages[i]))
  }

  lemma {:induction false} RdpPacketsHandled(a: Assembly, frames: seq<Frame>)
    ensures var (end, messages) := FedAll(a, frames, DEVICE_MESSAGE_LEN);
      HandledAll(a, AsRdpPackets(frames)) == (end, AsRequests(messages))
    decreases |frames|
  {
    if frames == [] {
      assert AsRequests([]) == [];
    } else {
      assert AsRdpPackets(frames)[1..] == AsRdpPackets(frames[1..]);
      var (next, r) := Fed(a, frames[0], DEVICE_MESSAGE_LEN);
      RdpPacketsHandled(next, frames[1..]);
      var (end, later) := FedAll(next, frames[1..], DEVICE_MESSAGE_LEN);
      var now := if r.Complete? then [Message(frames[0].header.number, r.payload)] else [];
      assert AsRequests(now + later) == AsRequests(now) + AsRequests(later);
      assert AsRequests(now) == Handled(a, RdpPacket(frames[0])).1;
    }
  }

  lemma {:induction false} RdpTrafficIsStream(frames: seq<Frame>)
    requires AllSendable(frames)
    ensures AllProper(AsRdpPackets(frames)) && TrafficBytes(AsRdpPackets(frames)) == StreamOf(frames)
    decreases |frames|
  {
    hide StuffedFrame;
    if frames == [] {
    } else {
      assert AsRdpPackets(frames)[1..] == AsRdpPackets(frames[1..]);
      RdpTrafficIsStream(frames[1..]);
    }
  }

  lemma OneRequestServed(a: Assembly, r: Request)
    requires Idle(a) && FitsDevice(r)
    ensures AllProper(PacketsFor(r))
    ensures var (end, requests) := HandledAll(a, PacketsFor(r));
      Idle(end) && requests == [r]
  {
    match r
    case RdpRequest(m) =>
      var frames := MessageFrames(0, m.number, m.payload);
      MessageFramesSendable(0, m.number, m.payload);
      RdpPacketsHandled(a, frames);
      MessageReassembles(a, 0, m.number, m.payload, DEVICE_MESSAGE_LEN);
      assert AsRequests([m]) == [RdpRequest(m)];
    case LegacyRequest(payload) =>
      var packets := [LegacyPacket(payload)];
      assert packets[1..] == [];
      assert HandledAll(a, []) == (a, []);
      assert [r] + [] == [r];
  }

  lemma {:induction false} AllRequestsServed(a: Assembly, requests: seq<Request>)
    requires Idle(a) && AllFitDevice(requests)
    ensures AllProper(PacketsForAll(requests))
    ensures var (end, served) := HandledAll(a, PacketsForAll(requests));
      Idle(end) && served == requests
    decreases |requests|
  {
    if requests == [] {
    } else {
      var now, later := PacketsFor(requests[0]), PacketsForAll(requests[1..]);
      OneRequestServed(a, requests[0]);
      var next := HandledAll(a, now).0;
      AllRequestsServed(next, requests[1..]);
      HandledAllAppend(a, now, later);
      assert [requests[0]] + requests[1..] == requests;
    }
  }

  /** Any mixture of requests in both protocols is served in order, however the reads fall. */
  lemma MixedRequestsServed(requests: seq<Request>, pieces: seq<seq<byte>>)
    requires AllFitDevice(requests)
    ensures AllProper(PacketsForAll(requests))
    ensures Flatten(pieces) == TrafficBytes(PacketsForAll(requests)) ==>
      var d := ServeReads(EMPTY, [], pieces);
      d.requests == requests && d.rest == [] && Idle(d.assembly) && NeverDropped(EMPTY, [], pieces)
  {
    AllRequestsServed(EMPTY, requests);
    var packets := PacketsForAll(requests);
    if Flatten(pieces) == TrafficBytes(packets) {
      assert [] + Flatten(pieces) == Flatten(pieces);
      if packets != [] {
        PacketLength(packets[0]);
      }
      ReadsServeTraffic(EMPTY, [], pieces, packets);
    }
  }
}
