/**
 * The receive loop of the firmware's comms task (stm32/src/main.rs): one serial line carries both
 * the legacy protocol and RDP, told apart by the first byte of each frame.
 */
module Demux {
  import opened Bytes
  import opened Cobs
  import opened Frame
  import opened Defrag
  import opened Receiver
  import opened Legacy

  const RX_LEN := 1024
  const SCRATCH_LEN := 600
  const DEVICE_MESSAGE_LEN := 1024

  /** A request handed to one of the two protocol handlers. */
  datatype Request = RdpRequest(message: Message) | LegacyRequest(payload: seq<byte>)

  datatype Demuxed = Demuxed(requests: seq<Request>, rest: seq<byte>, assembly: Assembly)

  function AsRequest(m: Option<Message>): seq<Request> {
    if m.Some? then [RdpRequest(m.value)] else []
  }

  function Before(requests: seq<Request>, d: Demuxed): Demuxed { d.(requests := requests + d.requests) }

  datatype Step = Take(consumed: nat, requests: seq<Request>, assembly: Assembly) | Leave(rest: seq<byte>)

  /** What one turn of the inner loop does with a non-empty buffer. */
  function NextFrame(a: Assembly, buf: seq<byte>): (s: Step)
    requires buf != []
    ensures s.Take? ==> 0 < s.consumed <= |buf|
  {
    if buf[0] != DELIMITER then
      var z := Position(buf);
      if z == |buf| then Leave(if |buf| == RX_LEN then [] else buf)
      else
        var (next, m) := HandleChunk(a, buf[..z], SCRATCH_LEN, DEVICE_MESSAGE_LEN);
        Take(z + 1, AsRequest(m), next)
    else
      match DecodeLegacy(buf)
      case Ok((payload, consumed)) => Take(consumed, [LegacyRequest(payload)], a)
      case Err(Incomplete) => Leave(buf)
      case Err(CrcMismatch) => Leave([])
  }

  /** What the inner loop does with the buffered bytes. */
  function Process(a: Assembly, buf: seq<byte>): Demuxed
    decreases |buf|
  {
    if buf == [] then Demuxed([], [], a) else
    match NextFrame(a, buf)
    case Leave(rest) => Demuxed([], rest, a)
    case Take(n, requests, next) => Before(requests, Process(next, buf[n..]))
  }

  /** One turn of the task: the bytes of a read are appended and processed. */
  function AfterRead(a: Assembly, rx: seq<byte>, data: seq<byte>): Demuxed {
    var d := Process(a, rx + data);
    if |d.rest| == RX_LEN then d.(rest := []) else d
  }

  lemma {:induction false} NoDelimiterIn(s: seq<byte>)
    requires ZeroFree(s)
    ensures Position(s) == |s|
  {
    if s == [] {
    } else {
      NoDelimiterIn(s[1..]);
    }
  }

  /** A buffer of 1024 bytes without a delimiter is thrown away; a shorter one is kept until more comes. */
  lemma FullBufferDropped(a: Assembly, rx: seq<byte>, data: seq<byte>)
    requires ZeroFree(rx + data) && 0 < |rx + data| <= 1024
    ensures AfterRead(a, rx, data) == Demuxed([], if |rx + data| == 1024 then [] else rx + data, a)
  {
    NoDelimiterIn(rx + data);
  }

  lemma BeforeNothing(d: Demuxed)
    ensures Before([], d) == d
  {
    assert [] + d.requests == d.requests;
  }

  /** What has been handled and what is still buffered come to `goal`. */
  ghost predicate Reaches(handled: seq<Request>, a: Assembly, buf: seq<byte>, more: bool, goal: Demuxed) {
    if more then Before(handled, Process(a, buf)) == goal else goal == Demuxed(handled, buf, a)
  }

  lemma ReachesAtStart(a: Assembly, buf: seq<byte>)
    ensures Reaches([], a, buf, true, Process(a, buf))
  {
    BeforeNothing(Process(a, buf));
  }

  lemma ReachedAtEnd(handled: seq<Request>, a: Assembly, buf: seq<byte>, more: bool, goal: Demuxed)
    requires Reaches(handled, a, buf, more, goal) && (more ==> buf == [])
    ensures goal == Demuxed(handled, buf, a)
  {
    assert handled + [] == handled;
  }

  lemma BeforeTwice(x: seq<Request>, y: seq<Request>, d: Demuxed)
    ensures Before(x, Before(y, d)) == Before(x + y, d)
  {
    assert x + (y + d.requests) == x + y + d.requests;
  }

  lemma {:induction false} StepTowards(handled: seq<Request>, a: Assembly, buf: seq<byte>, goal: Demuxed)
    requires buf != [] && Reaches(handled, a, buf, true, goal)
    ensures match NextFrame(a, buf)
      case Leave(rest) => Reaches(handled, a, rest, false, goal)
      case Take(n, taken, next) => Reaches(handled + taken, next, buf[n..], true, goal)
  {
    match NextFrame(a, buf)
    case Leave(rest) => assert handled + [] == handled;
    case Take(n, taken, next) => BeforeTwice(handled, taken, Process(next, buf[n..]));
  }

  class CommsTask {
    const rx: array<byte>
    var filled: nat
    const defrag: Defragmenter
    /** Requests handed to the two servers, in order. */
    var requests: seq<Request>

    ghost predicate Valid()
      reads this, defrag
    {
      && rx.Length == RX_LEN && filled <= RX_LEN
      && defrag.Valid() && defrag.capacity == DEVICE_MESSAGE_LEN
    }

    constructor ()
      ensures Valid() && filled == 0 && requests == [] && defrag.State() == EMPTY
      ensures fresh(rx) && fresh(defrag)
    {
      rx := new byte[RX_LEN](_ => 0);
      filled := 0;
      defrag := new Defragmenter(DEVICE_MESSAGE_LEN);
      requests := [];
    }

    /** `rx.copy_within(n..filled, 0); filled -= n` */
    method Drop(n: nat)
      requires Valid() && n <= filled
      modifies this`filled, rx
      ensures Valid() && rx[..filled] == old(rx[n..filled]) && filled == old(filled) - n
    {
      ghost var was := rx[..];
      forall i | 0 <= i < filled - n {
        rx[i] := rx[n + i];
      }
      filled := filled - n;
      assert forall i | 0 <= i < filled :: rx[i] == was[n + i];
    }

    /** Decodes a delimited chunk and feeds the frame, as the RDP branch does. */
    method HandleRdp(chunk: seq<byte>) returns (m: Option<Message>)
      requires Valid() && chunk != []
      modifies defrag
      ensures Valid()
      ensures (defrag.State(), m) == HandleChunk(old(defrag.State()), chunk, SCRATCH_LEN, DEVICE_MESSAGE_LEN)
    {
      m := None;
      var scratch := new byte[SCRATCH_LEN](_ => 0);
      var f := DecodeFrame(chunk, scratch);
      if f.Ok? {
        var fed := defrag.Feed(f.value);
        match fed
        case Complete(payload) => m := Some(Message(f.value.header.number, payload));
        case Pending =>
        case Failed => defrag.Reset();
      }
    }

    /** One turn of the inner loop; false when it is left. */
    method ProcessFrame(ghost a: Assembly, ghost buf: seq<byte>) returns (more: bool)
      requires Valid() && filled > 0 && a == defrag.State() && buf == rx[..filled]
      modifies this`filled, this`requests, rx, defrag
      ensures Valid() && more == NextFrame(a, buf).Take?
      ensures match NextFrame(a, buf)
        case Leave(rest) =>
          rx[..filled] == rest && defrag.State() == a && requests == old(requests)
        case Take(n, taken, next) =>
          rx[..filled] == buf[n..] && filled == |buf| - n && defrag.State() == next && requests == old(requests) + taken
    {
      if rx[0] != DELIMITER {
        var z := Position(rx[..filled]);
        if z == filled {
          if filled == rx.Length {
            filled := 0;
          }
          return false;
        }
        var m := HandleRdp(rx[..z]);
        assert buf[..z] == rx[..z];
        Drop(z + 1);
        assert rx[..filled] == buf[z + 1..];
        requests := requests + AsRequest(m);
        return true;
      } else {
        var r := DecodeLegacy(rx[..filled]);
        match r
        case Ok((payload, consumed)) =>
          Drop(consumed);
          assert rx[..filled] == buf[consumed..];
          requests := requests + [LegacyRequest(payload)];
          return true;
        case Err(Incomplete) =>
          return false;
        case Err(CrcMismatch) =>
          filled := 0;
          return false;
      }
    }

    /** The inner loop. */
    method ProcessBuffer()
      requires Valid()
      modifies this`filled, this`requests, rx, defrag
      ensures Valid()
      ensures var d := old(Process(defrag.State(), rx[..filled]));
        rx[..filled] == d.rest && defrag.State() == d.assembly && requests == old(requests) + d.requests
    {
      hide NextFrame, Process, Reaches;
      ghost var handled: seq<Request>, a, buf := [], defrag.State(), rx[..filled];
      ghost var goal := Process(a, buf);
      ReachesAtStart(a, buf);
      var more := true;
      while more && filled != 0
        invariant Valid() && requests == old(requests) + handled
        invariant a == defrag.State() && buf == rx[..filled]
        invariant Reaches(handled, a, buf, more, goal)
        decreases more, filled
      {
        ghost var s := NextFrame(a, buf);
        StepTowards(handled, a, buf, goal);
        more := ProcessFrame(a, buf);
        if more {
          Regrouped(old(requests), handled, s.requests);
          handled, a, buf := handled + s.requests, s.assembly, buf[s.consumed..];
        } else {
          buf := s.rest;
        }
      }
      ReachedAtEnd(handled, a, buf, more, goal);
    }

    /**
     * One turn of the task. What was read, if anything, fits the free part of the buffer; a failing
     * read empties it.
     */
    method Receive(reading: Reading)
      requires Valid() && (reading.Got? ==> filled + |reading.data| <= RX_LEN)
      modifies this`filled, this`requests, rx, defrag
      ensures Valid()
      ensures match reading
              case Broken => filled == 0 && defrag.State() == old(defrag.State()) && requests == old(requests)
              case Got(data) =>
                var d := AfterRead(old(defrag.State()), old(rx[..filled]), data);
                rx[..filled] == d.rest && defrag.State() == d.assembly && requests == old(requests) + d.requests
    {
      match reading {
        case Broken =>
          filled := 0;
        case Got(data) =>
          forall i | 0 <= i < |data| {
            rx[filled + i] := data[i];
          }
          filled := filled + |data|;
          assert rx[..filled] == old(rx[..filled]) + data;
      }
      ProcessBuffer();
      if filled == rx.Length {
        filled := 0;
      }
    }
  }
}
