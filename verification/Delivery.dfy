/**
 * Sender to receiver: what encode_message puts on a stream is what pop_message takes off it,
 * for any list of messages, and how the receiver recovers from any state.
 */
module Delivery {
  import opened Bytes
  import opened Cobs
  import opened Frame
  import opened Defrag
  import opened Receiver

  // ── The sender ───────────────────────────────────────────────────────────

  /** `encode_message` into a buffer of the size that `send_payload` computes. */
  method EncodeForSending(number: u16, payload: seq<byte>) returns (bytes: seq<byte>)
    ensures bytes == MessageBytes(0, number, payload)
  {
    var frames := if |payload| == 0 then 1 else (|payload| + 511) / 512;
    var out := new byte[frames * 600 + 16](_ => 0);
    SendBufferSuffices(0, number, payload);
    var n := EncodeMessage(0, number, payload, out);
    assert n.Ok?;
    return out[..n.value];
  }

  function SentBytes(messages: seq<Message>): seq<byte> {
    if messages == [] then []
    else MessageBytes(0, messages[0].number, messages[0].payload) + SentBytes(messages[1..])
  }

  lemma {:induction false} SentBytesAppend(messages: seq<Message>, m: Message)
    ensures SentBytes(messages + [m]) == SentBytes(messages) + MessageBytes(0, m.number, m.payload)
  {
    hide MessageBytes;
    var bytes := MessageBytes(0, m.number, m.payload);
    if messages == [] {
      assert [] + [m] == [m] && [m][1..] == [];
      assert SentBytes([]) == [] && bytes + [] == bytes == [] + bytes;
    } else {
      assert (messages + [m])[0] == messages[0] && (messages + [m])[1..] == messages[1..] + [m];
      SentBytesAppend(messages[1..], m);
      Regrouped(MessageBytes(0, messages[0].number, messages[0].payload), SentBytes(messages[1..]), bytes);
    }
  }

  lemma NumberAfter(k: nat, n: u16)
    requires n == 1 + k % 0xFFFF
    ensures (if (n + 1) % 0x1_0000 == 0 then 1 else (n + 1) % 0x1_0000) == 1 + (k + 1) % 0xFFFF
  {
  }

  class RdpSender {
    var nextSeq: u16
    /** Everything written to the stream so far, and the messages that it holds. */
    var wire: seq<byte>
    ghost var sent: seq<Message>

    /** The messages are numbered 1, 2, ... 65535, 1, ...; the number 0 is left out. */
    ghost predicate Valid()
      reads this
    {
      && wire == SentBytes(sent) && nextSeq == 1 + |sent| % 0xFFFF
      && forall k | 0 <= k < |sent| :: sent[k].number == 1 + k % 0xFFFF
    }

    constructor ()
      ensures Valid() && nextSeq == 1 && sent == []
    {
      nextSeq := 1;
      wire := [];
      sent := [];
    }

    /** Takes no error exit: the buffer it allocates is large enough for every payload. */
    method SendPayload(payload: seq<byte>) returns (number: u16)
      requires Valid()
      modifies this
      ensures Valid() && sent == old(sent) + [Message(number, payload)]
      ensures number == 1 + |old(sent)| % 0xFFFF
      ensures wire == old(wire) + MessageBytes(0, number, payload)
    {
      hide SentBytes, MessageBytes;
      NumberAfter(|sent|, nextSeq);
      number := nextSeq;
      nextSeq := (nextSeq + 1) % 0x1_0000;
      if nextSeq == 0 {
        nextSeq := 1;
      }
      SentBytesAppend(sent, Message(number, payload));
      var bytes := EncodeForSending(number, payload);
      wire := wire + bytes;
      sent := sent + [Message(number, payload)];
    }
  }

  /**
   * Over a whole run of a sender no payload goes out under 0, and two of them have the same number exactly
   * if they are a multiple of 65535 apart.
   */
  lemma NumbersDiffer(sender: RdpSender, j: nat, k: nat)
    requires sender.Valid() && j <= k < |sender.sent|
    ensures sender.sent[j].number != 0
    ensures sender.sent[j].number == sender.sent[k].number <==> (k - j) % 0xFFFF == 0
    ensures 0 < k - j < 0xFFFF ==> sender.sent[j].number != sender.sent[k].number
  {
    SameRemainder(j, k, 0xFFFF);
  }

  // ── Frames in, frames out ────────────────────────────────────────────────

  /** What the reassembly makes of a list of frames. */
  function FedAll(a: Assembly, frames: seq<Frame>, capacity: nat): (Assembly, seq<Message>)
    decreases |frames|
  {
    if frames == [] then (a, []) else
    var (next, r) := Fed(a, frames[0], capacity);
    var (end, later) := FedAll(next, frames[1..], capacity);
    (end, (if r.Complete? then [Message(frames[0].header.number, r.payload)] else []) + later)
  }

  lemma {:induction false} FedAllAppend(a: Assembly, x: seq<Frame>, y: seq<Frame>, capacity: nat)
    ensures var (mid, early) := FedAll(a, x, capacity);
      var (end, late) := FedAll(mid, y, capacity);
      FedAll(a, x + y, capacity) == (end, early + late)
    decreases |x|
  {
    if x == [] {
      assert x + y == y;
      assert [] + FedAll(a, y, capacity).1 == FedAll(a, y, capacity).1;
    } else {
      assert (x + y)[1..] == x[1..] + y;
      var (next, r) := Fed(a, x[0], capacity);
      FedAllAppend(next, x[1..], y, capacity);
      var first := if r.Complete? then [Message(x[0].header.number, r.payload)] else [];
      var (mid, early) := FedAll(next, x[1..], capacity);
      var late := FedAll(mid, y, capacity).1;
      assert first + (early + late) == first + early + late;
    }
  }

  lemma {:induction false} PositionOfDelimiter(chunk: seq<byte>, later: seq<byte>)
    requires ZeroFree(chunk)
    ensures Position(chunk + [DELIMITER] + later) == |chunk|
  {
    var s := chunk + [DELIMITER] + later;
    if chunk == [] {
    } else {
      PositionOfDelimiter(chunk[1..], later);
      assert s[0] == chunk[0] && s[1..] == chunk[1..] + [DELIMITER] + later;
    }
  }

  lemma OneFrameArrives(a: Assembly, f: Frame, later: seq<byte>)
    requires Sendable(f)
    ensures var (next, r) := Fed(a, f, MAX_MESSAGE_LEN);
      Parse(a, StuffedFrame(f) + [DELIMITER] + later) ==
        Joined(Parsed(if r.Complete? then [Message(f.header.number, r.payload)] else [], [], next), Parse(next, later))
  {
    FrameSurvives(f, MAX_RAW_FRAME_LEN);
    PositionOfDelimiter(StuffedFrame(f), later);
    ParseOneChunk(a, StuffedFrame(f), later);
  }

  lemma {:induction false} StreamSplits(frames: seq<Frame>, later: seq<byte>)
    requires frames != [] && AllSendable(frames)
    ensures AllSendable(frames[1..])
    ensures StreamOf(frames) + later == StuffedFrame(frames[0]) + [DELIMITER] + (StreamOf(frames[1..]) + later)
  {
    var x, y := StuffedFrame(frames[0]) + [DELIMITER], StreamOf(frames[1..]);
    assert x + y + later == x + (y + later);
  }

  /** The splitter and decoder hand the reassembly exactly the frames that were sent. */
  lemma {:induction false} FramesArrive(a: Assembly, frames: seq<Frame>, later: seq<byte>)
    requires AllSendable(frames)
    ensures var (end, messages) := FedAll(a, frames, MAX_MESSAGE_LEN);
      Parse(a, StreamOf(frames) + later) == Joined(Parsed(messages, [], end), Parse(end, later))
    decreases |frames|
  {
    if frames == [] {
      assert StreamOf(frames) + later == later;
      JoinedNothing(Parse(a, later), a, []);
    } else {
      FirstFrameArrives(a, frames, later);
    }
  }

  lemma {:induction false} FirstFrameArrives(a: Assembly, frames: seq<Frame>, later: seq<byte>)
    requires frames != [] && AllSendable(frames)
    ensures var (end, messages) := FedAll(a, frames, MAX_MESSAGE_LEN);
      Parse(a, StreamOf(frames) + later) == Joined(Parsed(messages, [], end), Parse(end, later))
    decreases |frames|, 0
  {
    var f, rest := frames[0], frames[1..];
    var (next, r) := Fed(a, f, MAX_MESSAGE_LEN);
    var (end, messages) := FedAll(next, rest, MAX_MESSAGE_LEN);
    var first := if r.Complete? then [Message(f.header.number, r.payload)] else [];
    StreamSplits(frames, later);
    OneFrameArrives(a, f, StreamOf(rest) + later);
    FramesArrive(next, rest, later);
    JoinedTwice(Parsed(first, [], next), Parsed(messages, [], end), Parse(end, later));
  }

  // ── One message through the reassembly ───────────────────────────────────

  /** The frames of one message, from where its first `done` bytes are already buffered. */
  lemma {:induction false} FragmentsReassemble(a: Assembly, flags: byte, number: u16, done: seq<byte>, payload: seq<byte>, capacity: nat)
    requires !IsLast(flags) && |done| + |payload| <= capacity
    requires if Idle(a) then done == [] else a == Assembly(done, Some(number))
    ensures FedAll(a, Fragments(flags, number, payload), capacity)
         == (Assembly(done + payload, None), [Message(number, done + payload)])
    decreases |payload|
  {
    var frames := Fragments(flags, number, payload);
    FragmentFlag(flags);
    LastFlag(WithFragment(flags));
    if |payload| <= MAX_PAYLOAD_LEN {
      assert frames[1..] == [];
      assert FedAll(Assembly(done + payload, None), [], capacity) == (Assembly(done + payload, None), []);
      assert [Message(number, done + payload)] + [] == [Message(number, done + payload)];
    } else {
      var head, tail := payload[..MAX_PAYLOAD_LEN], payload[MAX_PAYLOAD_LEN..];
      assert frames[1..] == Fragments(flags, number, tail);
      FragmentsReassemble(Assembly(done + head, Some(number)), flags, number, done + head, tail, capacity);
      assert done + head + tail == done + payload;
      assert [] + [Message(number, done + payload)] == [Message(number, done + payload)];
    }
  }

  /** Flags with which a message of `n` bytes gets through. */
  predicate FlagsAllow(flags: byte, n: nat) {
    if n <= MAX_PAYLOAD_LEN then IsFragment(flags) ==> IsLast(flags) else !IsLast(flags)
  }

  lemma MessageReassembles(a: Assembly, flags: byte, number: u16, payload: seq<byte>, capacity: nat)
    requires Idle(a) && |payload| <= capacity && FlagsAllow(flags, |payload|)
    ensures var (end, messages) := FedAll(a, MessageFrames(flags, number, payload), capacity);
      Idle(end) && messages == [Message(number, payload)]
  {
    assert [] + payload == payload;
    if |payload| <= MAX_PAYLOAD_LEN {
      var f := Frame(FrameHeader(VERSION, flags, number), payload);
      assert [f][1..] == [];
      var next := Fed(a, f, capacity).0;
      assert FedAll(next, [], capacity) == (next, []);
    } else {
      FragmentsReassemble(a, flags, number, [], payload, capacity);
    }
  }

  lemma MessageSpoiltByFlags(a: Assembly, flags: byte, number: u16, payload: seq<byte>, capacity: nat)
    requires Idle(a) && |payload| <= capacity && !FlagsAllow(flags, |payload|)
    ensures FedAll(a, MessageFrames(flags, number, payload), capacity).1 != [Message(number, payload)]
  {
    var frames := MessageFrames(flags, number, payload);
    FragmentFlag(flags);
    if |payload| <= MAX_PAYLOAD_LEN {
      assert frames[1..] == [];
      var next := Fed(a, frames[0], capacity).0;
      assert FedAll(next, [], capacity) == (next, []);
    } else {
      assert frames[0].payload == payload[..MAX_PAYLOAD_LEN];
      assert Fed(a, frames[0], capacity).1 == Complete([] + payload[..MAX_PAYLOAD_LEN]);
      assert FedAll(a, frames, capacity).1[0].payload == [] + payload[..MAX_PAYLOAD_LEN];
    }
  }

  /**
   * `encode_message` does not check the flags it is given. A message that fits the receiver comes
   * out as sent exactly if these flags allow it: in one frame "fragment" must not be set without
   * "last", in several "last" must not be set.
   */
  lemma DeliveredIffFlagsAllow(a: Assembly, flags: byte, number: u16, payload: seq<byte>, capacity: nat)
    requires Idle(a) && |payload| <= capacity
    ensures FedAll(a, MessageFrames(flags, number, payload), capacity).1 == [Message(number, payload)]
        <==> FlagsAllow(flags, |payload|)
  {
    if FlagsAllow(flags, |payload|) {
      MessageReassembles(a, flags, number, payload, capacity);
    } else {
      MessageSpoiltByFlags(a, flags, number, payload, capacity);
    }
  }

  /** One byte sent with "fragment" set and "last" clear: it is held back as the beginning of a message. */
  lemma FragmentFlagHoldsMessageBack(number: u16)
    ensures !FlagsAllow(2, 1)
    ensures FedAll(EMPTY, MessageFrames(2, number, [7]), 4096) == (Assembly([7], Some(number)), [])
  {
    var f := Frame(FrameHeader(VERSION, 2, number), [7]);
    var held := Assembly([7], Some(number));
    assert IsFragment(2) && !IsLast(2) && [] + [7] == [7];
    assert Fed(EMPTY, f, 4096) == (held, Pending);
    assert [f][1..] == [] && FedAll(held, [], 4096) == (held, []);
    assert FedAll(EMPTY, [f], 4096) == (held, [] + FedAll(held, [], 4096).1);
    assert [] + FedAll(held, [], 4096).1 == FedAll(held, [], 4096).1;
    assert MessageFrames(2, number, [7]) == [f];
  }

  // ── Any list of messages arrives ─────────────────────────────────────────

  ghost predicate AllFit(messages: seq<Message>) {
    forall i | 0 <= i < |messages| :: |messages[i].payload| <= 4096
  }

  lemma OneMessageArrives(a: Assembly, m: Message, later: seq<byte>) returns (end: Assembly)
    requires Idle(a) && |m.payload| <= MAX_MESSAGE_LEN
    ensures Idle(end)
    ensures Parse(a, MessageBytes(0, m.number, m.payload) + later) == Joined(Parsed([m], [], end), Parse(end, later))
  {
    var frames := MessageFrames(0, m.number, m.payload);
    MessageFramesSendable(0, m.number, m.payload);
    FramesArrive(a, frames, later);
    MessageReassembles(a, 0, m.number, m.payload, MAX_MESSAGE_LEN);
    end := FedAll(a, frames, MAX_MESSAGE_LEN).0;
  }

  lemma NothingParsed(a: Assembly)
    ensures Parse(a, []) == Parsed([], [], a)
  {
  }

  /** Every list of messages is delivered unchanged and in order, and nothing is left behind. */
  lemma {:induction false} MessagesArrive(a: Assembly, messages: seq<Message>)
    requires Idle(a) && AllFit(messages)
    ensures var p := Parse(a, SentBytes(messages));
      p.messages == messages && p.rest == [] && Idle(p.assembly)
    decreases |messages|
  {
    hide MessageBytes, Parse;
    if messages == [] {
      NothingParsed(a);
    } else {
      var later := SentBytes(messages[1..]);
      var end := OneMessageArrives(a, messages[0], later);
      MessagesArrive(end, messages[1..]);
      assert [messages[0]] + messages[1..] == messages;
    }
  }

  /** The same through any cutting of the stream into reads. */
  lemma MessagesArriveInPieces(messages: seq<Message>, pieces: seq<seq<byte>>)
    requires AllFit(messages) && Flatten(pieces) == SentBytes(messages)
    ensures var p := ParsePieces(EMPTY, [], pieces);
      p.messages == messages && p.rest == [] && Idle(p.assembly)
  {
    PiecesMakeNoDifference(EMPTY, [], pieces);
    assert [] + Flatten(pieces) == Flatten(pieces);
    MessagesArrive(EMPTY, messages);
  }

  // ── Recovery ─────────────────────────────────────────────────────────────

  lemma RestAfterChunk(a: Assembly, bytes: seq<byte>)
    requires Position(bytes) < |bytes|
    ensures var p := Position(bytes);
      var next := HandleChunk(a, bytes[..p], MAX_RAW_FRAME_LEN, MAX_MESSAGE_LEN).0;
      Parse(a, bytes).rest == Parse(next, bytes[p + 1..]).rest
  {
    hide HandleChunk;
  }

  lemma {:induction false} NothingLeftAfterDelimiter(a: Assembly, bytes: seq<byte>)
    requires bytes != [] && bytes[|bytes| - 1] == DELIMITER
    ensures Parse(a, bytes).rest == []
    decreases |bytes|
  {
    hide Parse, HandleChunk;
    var p := Position(bytes);
    assert !ZeroFree(bytes[..|bytes|]) by {
      assert bytes[..|bytes|][|bytes| - 1] == DELIMITER;
    }
    var next, later := HandleChunk(a, bytes[..p], MAX_RAW_FRAME_LEN, MAX_MESSAGE_LEN).0, bytes[p + 1..];
    RestAfterChunk(a, bytes);
    if later == [] {
      NothingParsed(next);
    } else {
      assert later[|later| - 1] == bytes[|bytes| - 1];
      NothingLeftAfterDelimiter(next, later);
    }
  }

  lemma {:induction false} FragmentsEndIdle(a: Assembly, number: u16, payload: seq<byte>, capacity: nat)
    ensures Idle(FedAll(a, Fragments(0, number, payload), capacity).0)
    decreases |payload|
  {
    var frames := Fragments(0, number, payload);
    var next := Fed(a, frames[0], capacity).0;
    if |payload| <= MAX_PAYLOAD_LEN {
      assert frames[1..] == [];
    } else {
      assert frames[1..] == Fragments(0, number, payload[MAX_PAYLOAD_LEN..]);
      FragmentsEndIdle(next, number, payload[MAX_PAYLOAD_LEN..], capacity);
    }
  }

  /** What is put together never exceeds the capacity. */
  lemma {:induction false} FragmentsWithinCapacity(a: Assembly, number: u16, payload: seq<byte>, capacity: nat)
    ensures forall m | m in FedAll(a, Fragments(0, number, payload), capacity).1 :: |m.payload| <= capacity
    decreases |payload|
  {
    var frames := Fragments(0, number, payload);
    var next := Fed(a, frames[0], capacity).0;
    FragmentFlag(0);
    LastFlag(WithFragment(0));
    if |payload| <= MAX_PAYLOAD_LEN {
      assert frames[1..] == [];
    } else {
      assert frames[1..] == Fragments(0, number, payload[MAX_PAYLOAD_LEN..]);
      FragmentsWithinCapacity(next, number, payload[MAX_PAYLOAD_LEN..], capacity);
    }
  }

  /** Whether a message comes out whole from the state it meets, after whatever was lost before it. */
  predicate TakenWhole(a: Assembly, m: Message, capacity: nat) {
    || |m.payload| <= MAX_PAYLOAD_LEN
    || (|m.payload| <= capacity && (Idle(a) || (a.current.value == m.number && a.buffer == [])))
  }

  /** A first fragment of another number is discarded together with what was being put together. */
  lemma FirstFragmentDiscarded(a: Assembly, number: u16, payload: seq<byte>, capacity: nat)
    requires !Idle(a) && a.current.value != number && MAX_PAYLOAD_LEN < |payload| <= capacity
    ensures FedAll(a, Fragments(0, number, payload), capacity).1 == [Message(number, payload[MAX_PAYLOAD_LEN..])]
  {
    var frames, tail := Fragments(0, number, payload), payload[MAX_PAYLOAD_LEN..];
    FragmentFlag(0);
    assert frames[1..] == Fragments(0, number, tail);
    assert Fed(a, frames[0], capacity) == (EMPTY, Failed);
    FragmentsReassemble(EMPTY, 0, number, [], tail, capacity);
    assert [] + tail == tail && [] + [Message(number, tail)] == [Message(number, tail)];
  }

  /** Behind bytes left over under the same number, a message that does not fit loses its front. */
  lemma {:induction false} OverflowLosesFront(a: Assembly, number: u16, payload: seq<byte>, capacity: nat)
    requires a.current == Some(number) && 0 < |payload| <= capacity < |a.buffer| + |payload|
    ensures forall m | m in FedAll(a, Fragments(0, number, payload), capacity).1 :: |m.payload| < |payload|
    decreases |payload|
  {
    var frames := Fragments(0, number, payload);
    FragmentFlag(0);
    LastFlag(WithFragment(0));
    if |payload| <= MAX_PAYLOAD_LEN {
      assert frames[1..] == [];
    } else {
      var head, tail := payload[..MAX_PAYLOAD_LEN], payload[MAX_PAYLOAD_LEN..];
      assert frames[1..] == Fragments(0, number, tail);
      if |a.buffer| + |head| > capacity {
        assert Fed(a, frames[0], capacity) == (EMPTY, Failed);
        FragmentsReassemble(EMPTY, 0, number, [], tail, capacity);
      } else {
        OverflowLosesFront(Assembly(a.buffer + head, Some(number)), number, tail, capacity);
      }
    }
  }

  lemma NotTakenWhole(a: Assembly, m: Message, capacity: nat)
    requires !TakenWhole(a, m, capacity)
    ensures FedAll(a, MessageFrames(0, m.number, m.payload), capacity).1 != [m]
  {
    hide FedAll, Fragments;
    var messages := FedAll(a, Fragments(0, m.number, m.payload), capacity).1;
    if messages == [m] {
      assert m in messages;
      if |m.payload| > capacity {
        FragmentsWithinCapacity(a, m.number, m.payload, capacity);
      } else if a.current.value != m.number {
        FirstFragmentDiscarded(a, m.number, m.payload, capacity);
      } else if |a.buffer| + |m.payload| > capacity {
        OverflowLosesFront(a, m.number, m.payload, capacity);
      } else {
        FragmentsReassemble(a, 0, m.number, a.buffer, m.payload, capacity);
      }
    }
  }

  /**
   * A complete message leaves the reassembly idle whatever state it met. It is delivered, as it was
   * sent and alone, exactly if it fits one frame, or it fits the receiver and meets no unfinished
   * message, or one of its own number without bytes.
   */
  lemma MessageEndsIdle(a: Assembly, m: Message, capacity: nat)
    ensures var (end, messages) := FedAll(a, MessageFrames(0, m.number, m.payload), capacity);
      Idle(end) && (messages == [m] <==> TakenWhole(a, m, capacity))
  {
    var frames := MessageFrames(0, m.number, m.payload);
    if |m.payload| <= MAX_PAYLOAD_LEN {
      assert frames[1..] == [];
      assert Fed(a, frames[0], capacity) == (EMPTY, Complete(m.payload));
      assert FedAll(EMPTY, [], capacity) == (EMPTY, []);
      assert [m] + [] == [m];
    } else {
      FragmentsEndIdle(a, m.number, m.payload, capacity);
      if TakenWhole(a, m, capacity) {
        FragmentsReassemble(a, 0, m.number, [], m.payload, capacity);
        assert [] + m.payload == m.payload;
      } else {
        NotTakenWhole(a, m, capacity);
      }
    }
  }

  lemma AppendedIff<T>(x: seq<T>, y: seq<T>, z: seq<T>)
    ensures x + y == x + z <==> y == z
  {
    assert (x + y)[|x|..] == y && (x + z)[|x|..] == z;
  }

  /**
   * From any receiver state and after any bytes up to a delimiter, one complete message restores
   * the receiver: everything sent after it arrives unchanged and in order. That message itself
   * arrives exactly if the state it met took it whole.
   */
  lemma ResynchronisesAfterOneMessage(a: Assembly, garbage: seq<byte>, first: Message, messages: seq<Message>)
    requires garbage != [] && garbage[|garbage| - 1] == DELIMITER && AllFit(messages)
    ensures var before := Parse(a, garbage);
      var p := Parse(a, garbage + MessageBytes(0, first.number, first.payload));
      var q := Parse(a, garbage + MessageBytes(0, first.number, first.payload) + SentBytes(messages));
      && q.messages == p.messages + messages && q.rest == [] && Idle(q.assembly)
      && before.messages <= p.messages
      && (p.messages == before.messages + [first] <==> TakenWhole(before.assembly, first, 4096))
  {
    var before := Parse(a, garbage);
    NothingLeftAfterDelimiter(a, garbage);
    var frames := MessageFrames(0, first.number, first.payload);
    MessageFramesSendable(0, first.number, first.payload);
    var bytes := MessageBytes(0, first.number, first.payload);
    var (end, got) := FedAll(before.assembly, frames, MAX_MESSAGE_LEN);
    MessageEndsIdle(before.assembly, first, MAX_MESSAGE_LEN);
    FramesArrive(before.assembly, frames, []);
    assert bytes + [] == bytes && before.rest + bytes == bytes;
    ParseAppend(a, garbage, bytes);
    var p := Parse(a, garbage + bytes);
    assert p == Parsed(before.messages + got, [], end) by {
      assert Parse(end, []) == Parsed([], [], end);
      assert got + [] == got;
    }
    AppendedIff(before.messages, got, [first]);
    ParseAppend(a, garbage + bytes, SentBytes(messages));
    assert p.rest + SentBytes(messages) == SentBytes(messages);
    MessagesArrive(end, messages);
  }
}
