/**
 * A host session (client/src/rdp.rs): a request waits for its own answer while pushes come in
 * between, and telemetry crosses the whole stack from the device's samples to the host's queue.
 */
module Session {
  import opened Bytes
  import opened Frame
  import opened Defrag
  import opened Receiver
  import opened Delivery
  import opened Telemetry
  import opened Streams
  import opened Schedule
  import opened HostTelemetry

  const TELEM_FRAME: u16 := 0x04F0

  // ── Message headers (device-api/src/message.rs) ──────────────────────────

  datatype Kind = Request | Response | Event | Telemetry

  function KindByte(k: Kind): byte { match k case Request => 0 case Response => 1 case Event => 2 case Telemetry => 3 }

  function KindOf(b: byte): Option<Kind> {
    match b case 0 => Some(Request) case 1 => Some(Response) case 2 => Some(Event) case 3 => Some(Telemetry) case _ => None
  }

  function WithHeader(kind: Kind, op: u16, body: seq<byte>): (payload: seq<byte>)
    ensures |payload| == MESSAGE_HEADER_LEN + |body|
  {
    [KindByte(kind), Lo(op), Hi(op)] + body
  }

  datatype Content = Content(kind: Kind, op: u16, body: seq<byte>)

  function ReadHeader(payload: seq<byte>): Option<Content> {
    if |payload| < MESSAGE_HEADER_LEN || KindOf(payload[0]).None? then None
    else Some(Content(KindOf(payload[0]).value, From16(payload[1], payload[2]), payload[MESSAGE_HEADER_LEN..]))
  }

  lemma HeaderRoundTrip(kind: Kind, op: u16, body: seq<byte>)
    ensures ReadHeader(WithHeader(kind, op, body)) == Some(Content(kind, op, body))
  {
    Split16(op, 0, 0);
    assert WithHeader(kind, op, body)[MESSAGE_HEADER_LEN..] == body;
  }

  /** The header on the wire: the kind as 0 to 3, then the operation with its low byte first. */
  lemma HeaderBytes(op: u16, body: seq<byte>)
    ensures var rest: seq<byte> := [op % 0x100, op / 0x100] + body;
      && WithHeader(Request, op, body) == [0] + rest && WithHeader(Response, op, body) == [1] + rest
      && WithHeader(Event, op, body) == [2] + rest && WithHeader(Telemetry, op, body) == [3] + rest
    ensures WithHeader(Telemetry, TELEM_FRAME, []) == [3, 0xF0, 0x04]
  {
  }

  // ── Waiting for an answer ────────────────────────────────────────────────

  datatype Outcome = Answer(body: seq<byte>) | UnexpectedOp(got: u16) | Lost(error: RecvError)

  ghost function FramesOf(layouts: Layouts, channels: Channels, m: Message): seq<TelemetryFrame> {
    match ReadHeader(m.payload)
    case Some(Content(Telemetry, _, body)) =>
      (match QueuedBy(layouts, channels, body) case None => [] case Some(f) => [f])
    case _ => []
  }

  /** A message adds to the telemetry queue at most by its body, and only if its first byte says telemetry. */
  lemma OnlyTelemetryQueued(layouts: Layouts, channels: Channels, m: Message)
    ensures FramesOf(layouts, channels, m) ==
      if |m.payload| >= 3 && m.payload[0] == 3 then AsList(QueuedBy(layouts, channels, m.payload[3..])) else []
  {
    hide QueuedBy;
  }

  /** The frames that a list of messages adds to the telemetry queue. */
  ghost function QueuedFrom(layouts: Layouts, channels: Channels, messages: seq<Message>): seq<TelemetryFrame> {
    if messages == [] then [] else FramesOf(layouts, channels, messages[0]) + QueuedFrom(layouts, channels, messages[1..])
  }

  /** The message that ends the wait for request `number`. */
  predicate Ends(m: Message, number: u16) {
    ReadHeader(m.payload).Some? && ReadHeader(m.payload).value.kind == Response && m.number == number
  }

  /** Number of messages in front of the one that ends the wait. */
  function Wait(messages: seq<Message>, number: u16): (n: nat)
    ensures n <= |messages| && forall i | 0 <= i < n :: !Ends(messages[i], number)
    ensures n < |messages| ==> Ends(messages[n], number)
  {
    if messages == [] || Ends(messages[0], number) then 0 else 1 + Wait(messages[1..], number)
  }

  function OutcomeOf(messages: seq<Message>, number: u16, op: u16, stop: RecvError): Outcome {
    var n := Wait(messages, number);
    if n == |messages| then Lost(stop) else
    var content := ReadHeader(messages[n].payload).value;
    if content.op != op then UnexpectedOp(content.op) else Answer(content.body)
  }

  lemma EndsIfAnswer(m: Message, op: u16, body: seq<byte>)
    requires ReadHeader(m.payload) == Some(Content(Response, op, body))
    ensures Ends(m, m.number)
  {
  }

  lemma WaitIs(messages: seq<Message>, number: u16, n: nat)
    requires n <= |messages| && forall i | 0 <= i < n :: !Ends(messages[i], number)
    requires n < |messages| ==> Ends(messages[n], number)
    ensures Wait(messages, number) == n
  {
  }

  /**
   * The first answer with the number of the request decides, with its body if it is for the same operation
   * and as unexpected otherwise; without one the outcome is the error that ended the stream.
   */
  lemma FirstAnswerDecides(before: seq<Message>, number: u16, op: u16, got: u16, body: seq<byte>, later: seq<Message>, stop: RecvError)
    requires forall i | 0 <= i < |before| :: !Ends(before[i], number)
    ensures var messages := before + [Message(number, WithHeader(Response, got, body))] + later;
      && Wait(messages, number) == |before|
      && OutcomeOf(messages, number, op, stop) == if got == op then Answer(body) else UnexpectedOp(got)
    ensures OutcomeOf(before, number, op, stop) == Lost(stop)
  {
    hide Ends, ReadHeader, WithHeader;
    HeaderRoundTrip(Response, got, body);
    var m := Message(number, WithHeader(Response, got, body));
    var messages := before + [m] + later;
    EndsIfAnswer(m, got, body);
    assert messages[|before|] == m && forall i | 0 <= i < |before| :: messages[i] == before[i];
    WaitIs(messages, number, |before|);
    WaitIs(before, number, |before|);
  }

  lemma NothingQueued(layouts: Layouts, channels: Channels)
    ensures QueuedFrom(layouts, channels, []) == []
  {
  }

  lemma {:induction false} QueuedAppend(layouts: Layouts, channels: Channels, messages: seq<Message>, m: Message)
    ensures QueuedFrom(layouts, channels, messages + [m]) == QueuedFrom(layouts, channels, messages) + FramesOf(layouts, channels, m)
  {
    hide FramesOf;
    if messages == [] {
      assert QueuedFrom(layouts, channels, []) == [];
      assert [] + FramesOf(layouts, channels, m) == FramesOf(layouts, channels, m) + [];
    } else {
      assert (messages + [m])[1..] == messages[1..] + [m];
      QueuedAppend(layouts, channels, messages[1..], m);
    }
  }

  lemma QueuedOneMore(layouts: Layouts, channels: Channels, messages: seq<Message>, n: nat, queued: seq<TelemetryFrame>)
    requires n < |messages|
    ensures queued + QueuedFrom(layouts, channels, messages[..n + 1]) ==
            queued + QueuedFrom(layouts, channels, messages[..n]) + FramesOf(layouts, channels, messages[n])
  {
    hide FramesOf;
    QueuedAppend(layouts, channels, messages[..n], messages[n]);
    assert messages[..n + 1] == messages[..n] + [messages[n]];
  }

  class RdpSession {
    const sender: RdpSender
    const receiver: RdpReceiver
    const host: TelemetryClient

    ghost predicate Valid()
      reads this, sender, receiver, receiver.defrag
    {
      sender.Valid() && receiver.Valid()
    }

    /** Every message the stream has still to deliver. */
    ghost function Coming(): seq<Message>
      reads receiver, receiver.defrag, receiver.stream
    {
      Parse(receiver.defrag.State(), receiver.rx + UntilStop(receiver.stream.readings)).messages
    }

    constructor (stream: ByteStream)
      ensures Valid() && fresh(sender) && fresh(receiver) && fresh(receiver.defrag) && fresh(host)
      ensures receiver.stream == stream && sender.sent == []
    {
      sender := new RdpSender();
      receiver := new RdpReceiver(stream);
      host := new TelemetryClient();
    }

    /**
     * Sends a request and takes messages off the stream until the answer with its number; pushes
     * that come first are queued in order, answers to other requests are skipped.
     */
    method RoundTrip(op: u16, payload: seq<byte>) returns (r: Outcome)
      requires Valid()
      modifies sender, receiver, receiver.defrag, receiver.stream, host
      ensures Valid() && host.layouts == old(host.layouts) && host.channels == old(host.channels)
      ensures sender.sent == old(sender.sent) + [Message(1 + |old(sender.sent)| % 0xFFFF, payload)]
      ensures sender.wire == old(sender.wire) + MessageBytes(0, 1 + |old(sender.sent)| % 0xFFFF, payload)
      ensures var coming, number := old(Coming()), 1 + |old(sender.sent)| % 0xFFFF;
        var n := Wait(coming, number);
        && r == OutcomeOf(coming, number, op, old(StopOf(receiver.stream.readings)))
        && host.telemetry == old(host.telemetry) + QueuedFrom(host.layouts, host.channels, coming[..n])
        && (n < |coming| ==> Coming() == coming[n + 1..])
    {
      hide Parse, ReadHeader, FramesOf, QueuedFrom, Ends, Wait, StopOf, SentBytes, MessageBytes;
      NothingQueued(host.layouts, host.channels);
      var number := sender.SendPayload(payload);
      ghost var coming, n := Coming(), 0;
      ghost var queued := host.telemetry;
      assert coming[0..] == coming && coming[..0] == [];
      assert queued + [] == queued;
      while true
        invariant Valid() && host.layouts == old(host.layouts) && host.channels == old(host.channels)
        invariant number == 1 + |old(sender.sent)| % 0xFFFF
        invariant sender.wire == old(sender.wire) + MessageBytes(0, number, payload)
        invariant sender.sent == old(sender.sent) + [Message(number, payload)]
        invariant n <= |coming| && Coming() == coming[n..]
        invariant StopOf(receiver.stream.readings) == old(StopOf(receiver.stream.readings))
        invariant forall i | 0 <= i < n :: !Ends(coming[i], number)
        invariant host.telemetry == queued + QueuedFrom(host.layouts, host.channels, coming[..n])
        decreases |coming| - n
      {
        ghost var left := Coming();
        var m := NextMessage();
        if m.Err? {
          WaitIs(coming, number, n);
          return Lost(m.error);
        }
        assert left == [m.value] + Coming() && coming[n] == left[0] && coming[n + 1..] == left[1..];
        var done;
        r, done := Take(m.value, number, op);
        if done {
          WaitIs(coming, number, n);
          return;
        }
        QueuedOneMore(host.layouts, host.channels, coming, n, queued);
        n := n + 1;
      }
    }

    method NextMessage() returns (m: Result<Message, RecvError>)
      requires Valid()
      modifies receiver, receiver.defrag, receiver.stream
      ensures Valid()
      ensures m.Err? ==> old(Coming()) == [] && m.error == old(StopOf(receiver.stream.readings))
      ensures m.Ok? ==> old(Coming()) == [m.value] + Coming()
      ensures m.Ok? ==> StopOf(receiver.stream.readings) == old(StopOf(receiver.stream.readings))
    {
      hide Parse, StopOf;
      m := receiver.RecvMessage();
    }

    /** One turn of the loop on a received message; the outcome is final if `done`. */
    method Take(m: Message, number: u16, op: u16) returns (r: Outcome, done: bool)
      modifies host`telemetry
      ensures done == Ends(m, number)
      ensures done ==> var content := ReadHeader(m.payload).value;
                r == (if content.op != op then UnexpectedOp(content.op) else Answer(content.body)) && host.telemetry == old(host.telemetry)
      ensures !done ==> host.telemetry == old(host.telemetry) + FramesOf(host.layouts, host.channels, m)
    {
      hide QueuedBy;
      r, done := Lost(ConnectionClosed), false;
      assert host.telemetry + [] == host.telemetry;
      var header := ReadHeader(m.payload);
      if header.None? {
        return;
      }
      match header.value.kind
      case Response =>
        if m.number != number {
          return;
        }
        if header.value.op != op {
          return UnexpectedOp(header.value.op), true;
        }
        return Answer(header.value.body), true;
      case Telemetry =>
        host.QueueTelemetry(header.value.body);
      case Event =>
      case Request =>
    }
  }

  // ── Telemetry across the stack ───────────────────────────────────────────

  /** The messages of the drain loop for the given frame bodies. */
  function Pushes(bodies: seq<seq<byte>>, number: u16): (messages: seq<Message>)
    ensures |messages| == |bodies|
  {
    if bodies == [] then [] else
    [Message(number, WithHeader(Telemetry, TELEM_FRAME, bodies[0]))] + Pushes(bodies[1..], Streams.NextNumber(number))
  }

  /** The frame has the numbers of the stream and shows what was read of its channels. */
  ghost predicate Reports(f: TelemetryFrame, s: Stream, id: byte, snap: Snapshot, now: u32) {
    f.stream == id && f.number == s.number && f.time == now && AllShown(s.channels, snap, f.values)
  }

  predicate ComesThrough(s: Stream)
    requires ValidStream(s)
  {
    FlagsBeforeLastNumber(WiresOf(s.channels)) < 8
  }

  /** One frame for each stream due at `now`, in slot order; the first slot has stream number `id`. */
  ghost predicate AllReported(frames: seq<TelemetryFrame>, slots: Slots, id: nat, snap: Snapshot, now: u32)
    requires id + |slots| <= 0x100
    decreases |slots|
  {
    if slots == [] then frames == []
    else if slots[0].Some? && slots[0].value.nextDue <= now then
      frames != [] && Reports(frames[0], slots[0].value, id, snap, now) && AllReported(frames[1..], slots[1..], id + 1, snap, now)
    else AllReported(frames, slots[1..], id + 1, snap, now)
  }

  /** The host knows the layouts of the due streams, and they are of the kind that comes through. */
  ghost predicate Understood(slots: Slots, id: nat, now: u32, layouts: Layouts)
    requires id + |slots| <= 0x100 && forall i | 0 <= i < |slots| && slots[i].Some? :: ValidStream(slots[i].value)
  {
    forall i | 0 <= i < |slots| && Due(slots[i], now) ::
      && id + i in layouts && layouts[id + i] == slots[i].value.channels
      && ComesThrough(slots[i].value)
  }

  lemma FrameShort(s: Stream, id: byte, snap: Snapshot, now: u32)
    requires ValidStream(s)
    ensures |FrameOf(s, id, snap, now)| <= ROOM
  {
    hide Packed;
    FrameFits(s);
    PackedLength(SamplesOf(s.channels, snap), []);
    assert WiresIn(SamplesOf(s.channels, snap)) == WiresOf(s.channels);
  }

  lemma OnePushQueued(s: Stream, id: byte, snap: Snapshot, now: u32, number: u16, layouts: Layouts, channels: Channels)
    requires ValidStream(s) && id in layouts && layouts[id] == s.channels && CatalogueKnown(channels)
    requires ComesThrough(s)
    ensures var frames := FramesOf(layouts, channels, Message(number, WithHeader(Telemetry, TELEM_FRAME, FrameOf(s, id, snap, now))));
      |frames| == 1 && Reports(frames[0], s, id, snap, now)
  {
    hide QueuedBy, ReadHeader, WithHeader, FlagsBeforeLastNumber, AllShown;
    HeaderRoundTrip(Telemetry, TELEM_FRAME, FrameOf(s, id, snap, now));
    FramesArriveIffFewFlagsFirst(s, id, now, layouts, channels);
    assert Arrives(s, id, snap, now, layouts, channels);
  }

  lemma FirstQueued(layouts: Layouts, channels: Channels, messages: seq<Message>)
    requires messages != [] && |FramesOf(layouts, channels, messages[0])| == 1
    ensures var queued := QueuedFrom(layouts, channels, messages);
      && queued != [] && queued[0] == FramesOf(layouts, channels, messages[0])[0]
      && queued[1..] == QueuedFrom(layouts, channels, messages[1..])
  {
    hide FramesOf;
  }

  lemma {:induction false} PushesQueued(slots: Slots, id: nat, snap: Snapshot, now: u32, number: u16, layouts: Layouts, channels: Channels)
    requires id + |slots| <= 0x100 && forall i | 0 <= i < |slots| && slots[i].Some? :: ValidStream(slots[i].value)
    requires Understood(slots, id, now, layouts) && CatalogueKnown(channels)
    ensures var messages := Pushes(DueFrames(slots, id, snap, now), number);
      && AllFit(messages)
      && AllReported(QueuedFrom(layouts, channels, messages), slots, id, snap, now)
    decreases |slots|
  {
    hide FrameOf, Reports, QueuedBy, ReadHeader, WithHeader, ComesThrough, FramesOf;
    if slots == [] {
    } else {
      var bodies := DueFrames(slots, id, snap, now);
      var later := DueFrames(slots[1..], id + 1, snap, now);
      assert forall i | 0 <= i < |slots[1..]| :: slots[1..][i] == slots[i + 1];
      assert Understood(slots[1..], id + 1, now, layouts) by {
        forall i | 0 <= i < |slots[1..]| && Due(slots[1..][i], now)
          ensures id + 1 + i in layouts && layouts[id + 1 + i] == slots[1..][i].value.channels
                  && ComesThrough(slots[1..][i].value)
        {
          assert Due(slots[i + 1], now) && id + (i + 1) in layouts;
        }
      }
      if Due(slots[0], now) {
        var s := slots[0].value;
        assert bodies[0] == FrameOf(s, id, snap, now) && bodies[1..] == later;
        PushesQueued(slots[1..], id + 1, snap, now, Streams.NextNumber(number), layouts, channels);
        FrameShort(s, id, snap, now);
        OnePushQueued(s, id, snap, now, number, layouts, channels);
        FirstQueued(layouts, channels, Pushes(bodies, number));
      } else {
        assert bodies == [] + later == later;
        PushesQueued(slots[1..], id + 1, snap, now, number, layouts, channels);
      }
    }
  }

  /**
   * From the samples of the device to the queue of the host: whatever is measured and however the
   * stream is cut into reads, draining the due streams queues one frame for each, in slot order,
   * with its number and time, and with values that show what was read of its channels.
   */
  lemma DrainedTelemetryArrives(slots: Slots, snap: Snapshot, now: u32, number: u16, layouts: Layouts, channels: Channels,
                                pieces: seq<seq<byte>>)
    requires ValidSlots(slots) && Understood(slots, 1, now, layouts) && CatalogueKnown(channels)
    requires Flatten(pieces) == SentBytes(Pushes(DueFrames(slots, 1, snap, now), number))
    ensures var p := ParsePieces(EMPTY, [], pieces);
      && AllReported(QueuedFrom(layouts, channels, p.messages), slots, 1, snap, now)
      && p.rest == [] && Idle(p.assembly)
  {
    hide DueFrames, AllReported, QueuedFrom, ParsePieces, SentBytes;
    PushesQueued(slots, 1, snap, now, number, layouts, channels);
    MessagesArriveInPieces(Pushes(DueFrames(slots, 1, snap, now), number), pieces);
  }
}
