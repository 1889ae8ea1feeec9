/** The receiving side of the host client (client/src/rdp.rs): splitting, decoding, reassembling. */
module Receiver {
  import opened Bytes
  import opened Cobs
  import opened Frame
  import opened Defrag

  const MAX_MESSAGE_LEN := 4096

  datatype Message = Message(number: u16, payload: seq<byte>)

  /** Everything in a byte string that can be handled, and what is left over. */
  datatype Parsed = Parsed(messages: seq<Message>, rest: seq<byte>, assembly: Assembly)

  /** Position of the first delimiter, or the length if there is none. */
  function Position(s: seq<byte>): (p: nat)
    ensures p <= |s| && ZeroFree(s[..p])
    ensures p < |s| ==> s[p] == DELIMITER
  {
    if s == [] || s[0] == DELIMITER then 0
    else
      var p := 1 + Position(s[1..]);
      assert forall i | 0 < i < p :: s[i] == s[1..][i - 1];
      p
  }

  /** What one delimited chunk does. */
  function HandleChunk(a: Assembly, chunk: seq<byte>, room: nat, capacity: nat): (Assembly, Option<Message>) {
    if chunk == [] then (a, None) else
    match DecodedFrame(chunk, room)
    case Err(_) => (a, None)
    case Ok(f) =>
      var (next, r) := Fed(a, f, capacity);
      (next, if r.Complete? then Some(Message(f.header.number, r.payload)) else None)
  }

  /** The one-shot parser that the incremental receiver is measured against. */
  function Parse(a: Assembly, bytes: seq<byte>): Parsed
    decreases |bytes|
  {
    var p := Position(bytes);
    if p == |bytes| then Parsed([], bytes, a)
    else
      var (next, m) := HandleChunk(a, bytes[..p], MAX_RAW_FRAME_LEN, MAX_MESSAGE_LEN);
      var later := Parse(next, bytes[p + 1..]);
      later.(messages := AsList(m) + later.messages)
  }

  // ── Reading a stream in pieces makes no difference ───────────────────────

  lemma {:induction false} PositionAppend(a: seq<byte>, b: seq<byte>)
    requires Position(a) < |a|
    ensures Position(a + b) == Position(a)
  {
    if a[0] == DELIMITER {
    } else {
      assert (a + b)[1..] == a[1..] + b;
      PositionAppend(a[1..], b);
    }
  }

  function Joined(p: Parsed, later: Parsed): Parsed { later.(messages := p.messages + later.messages) }

  lemma {:induction false} ParseOneChunk(a: Assembly, chunk: seq<byte>, later: seq<byte>)
    requires Position(chunk + [DELIMITER] + later) == |chunk|
    ensures var (next, m) := HandleChunk(a, chunk, MAX_RAW_FRAME_LEN, MAX_MESSAGE_LEN);
      Parse(a, chunk + [DELIMITER] + later) == Joined(Parsed(AsList(m), [], next), Parse(next, later))
  {
    var bytes := chunk + [DELIMITER] + later;
    assert bytes[..|chunk|] == chunk && bytes[|chunk| + 1..] == later;
  }

  lemma JoinedTwice(p: Parsed, q: Parsed, r: Parsed)
    ensures Joined(p, Joined(q, r)) == Joined(Joined(p, q), r)
  {
    assert p.messages + (q.messages + r.messages) == p.messages + q.messages + r.messages;
  }

  lemma JoinedNothing(p: Parsed, a: Assembly, rest: seq<byte>)
    ensures Joined(Parsed([], rest, a), p) == p
  {
    assert [] + p.messages == p.messages;
  }

  /** Parsing more bytes continues from what parsing the earlier ones left. */
  lemma {:induction false} ParseAppend(a: Assembly, x: seq<byte>, y: seq<byte>)
    ensures Parse(a, x + y) == Joined(Parse(a, x), Parse(Parse(a, x).assembly, Parse(a, x).rest + y))
    decreases |x|
  {
    var p := Position(x);
    if p == |x| {
      JoinedNothing(Parse(a, x + y), a, x);
    } else {
      PositionAppend(x, y);
      var chunk, later := x[..p], x[p + 1..];
      assert x == chunk + [DELIMITER] + later && x + y == chunk + [DELIMITER] + (later + y);
      ParseOneChunk(a, chunk, later);
      ParseOneChunk(a, chunk, later + y);
      var (next, m) := HandleChunk(a, chunk, MAX_RAW_FRAME_LEN, MAX_MESSAGE_LEN);
      ParseAppend(next, later, y);
      var q := Parse(next, later);
      JoinedTwice(Parsed(AsList(m), [], next), q, Parse(q.assembly, q.rest + y));
    }
  }

  /** What is left over holds no delimiter. */
  lemma {:induction false} RestIsZeroFree(a: Assembly, bytes: seq<byte>)
    ensures ZeroFree(Parse(a, bytes).rest)
    decreases |bytes|
  {
    var p := Position(bytes);
    if p == |bytes| {
      assert bytes[..p] == bytes;
    } else {
      var (next, _) := HandleChunk(a, bytes[..p], MAX_RAW_FRAME_LEN, MAX_MESSAGE_LEN);
      RestIsZeroFree(next, bytes[p + 1..]);
    }
  }

  /** The receiver that takes the stream in the pieces that reads happen to return. */
  function ParsePieces(a: Assembly, rx: seq<byte>, pieces: seq<seq<byte>>): Parsed
    decreases |pieces|
  {
    var p := Parse(a, rx);
    if pieces == [] then p else Joined(p, ParsePieces(p.assembly, p.rest + pieces[0], pieces[1..]))
  }

  lemma OneMorePiece(a: Assembly, rx: seq<byte>, piece: seq<byte>, later: seq<byte>)
    ensures var p := Parse(a, rx);
      Parse(a, rx + (piece + later)) == Joined(p, Parse(p.assembly, p.rest + piece + later))
  {
    hide Parse, Joined;
    ParseAppend(a, rx, piece + later);
    Regrouped(Parse(a, rx).rest, piece, later);
  }

  /** Messages, left-over bytes and final state depend on the concatenation of the reads alone. */
  lemma {:induction false} PiecesMakeNoDifference(a: Assembly, rx: seq<byte>, pieces: seq<seq<byte>>)
    ensures ParsePieces(a, rx, pieces) == Parse(a, rx + Flatten(pieces))
    decreases |pieces|
  {
    if pieces == [] {
      assert rx + Flatten(pieces) == rx;
    } else {
      var p := Parse(a, rx);
      PiecesMakeNoDifference(p.assembly, p.rest + pieces[0], pieces[1..]);
      OneMorePiece(a, rx, pieces[0], Flatten(pieces[1..]));
    }
  }

  // ── The receiver object ──────────────────────────────────────────────────

  /** What one read of the stream returns. */
  datatype Reading = Got(data: seq<byte>) | Broken

  datatype RecvError = ConnectionClosed | ReadFailed

  /** A stream whose reads return the given readings and then report the end. */
  class ByteStream {
    var readings: seq<Reading>

    constructor (readings: seq<Reading>)
      ensures this.readings == readings
    {
      this.readings := readings;
    }

    method Read() returns (r: Reading)
      modifies this
      ensures if old(readings) == [] then r == Got([]) && readings == []
              else r == old(readings)[0] && readings == old(readings)[1..]
    {
      if readings == [] {
        return Got([]);
      }
      r := readings[0];
      readings := readings[1..];
    }
  }

  /** A read that returns nothing, or fails, stops the receiver. */
  predicate Stops(r: Reading) { r.Broken? || r.data == [] }

  /** All that is read before that. */
  function UntilStop(readings: seq<Reading>): seq<byte> {
    if readings == [] || Stops(readings[0]) then [] else readings[0].data + UntilStop(readings[1..])
  }

  function StopOf(readings: seq<Reading>): RecvError {
    if readings == [] then ConnectionClosed
    else if readings[0].Broken? then ReadFailed
    else if readings[0].data == [] then ConnectionClosed
    else StopOf(readings[1..])
  }

  function AfterStop(readings: seq<Reading>): seq<Reading> {
    if readings == [] then [] else if Stops(readings[0]) then readings[1..] else AfterStop(readings[1..])
  }

  function DataOf(readings: seq<Reading>): seq<byte>
    requires forall i | 0 <= i < |readings| :: readings[i].Got?
  {
    if readings == [] then [] else readings[0].data + DataOf(readings[1..])
  }

  /**
   * What a stream delivers is decided by its first failing or empty read: the data in front of it, a failed
   * read or a closed connection, and what is left for later. A stream without one closes at its end.
   */
  lemma {:induction false} FirstStopDecides(good: seq<Reading>, last: Option<Reading>, later: seq<Reading>)
    requires forall i | 0 <= i < |good| :: good[i].Got? && good[i].data != []
    requires if last.None? then later == [] else last.value == Broken || last.value == Got([])
    ensures var all := good + AsList(last) + later;
      && UntilStop(all) == DataOf(good) && AfterStop(all) == later
      && StopOf(all) == if last == Some(Broken) then ReadFailed else ConnectionClosed
    decreases |good|
  {
    var all := good + AsList(last) + later;
    if good == [] {
      if last.Some? {
        assert all[0] == last.value && all[1..] == later;
      } else {
        assert all == [];
      }
    } else {
      assert all[0] == good[0] && all[1..] == good[1..] + AsList(last) + later;
      FirstStopDecides(good[1..], last, later);
    }
  }

  lemma NothingPopped(a0: Assembly, rx0: seq<byte>, data: seq<byte>, later: seq<byte>, a: Assembly, rx: seq<byte>)
    requires Parse(a0, rx0) == Parsed([], rx, a)
    ensures Parse(a0, rx0 + (data + later)) == Parse(a, rx + data + later)
    ensures data == [] && later == [] ==> Parse(a0, rx0 + []) == Parsed([], rx, a)
  {
    OneMorePiece(a0, rx0, data, later);
    JoinedNothing(Parse(a, rx + data + later), a, rx);
    assert rx0 + [] == rx0;
  }

  lemma PoppedThenRest(a0: Assembly, rx0: seq<byte>, coming: seq<byte>, m: Message, a: Assembly, rx: seq<byte>)
    requires Parse(a0, rx0) == Joined(Parsed([m], [], a), Parse(a, rx))
    ensures Parse(a0, rx0 + coming) == Joined(Parsed([m], [], a), Parse(a, rx + coming))
  {
    ParseAppend(a0, rx0, coming);
    ParseAppend(a, rx, coming);
    var p := Parse(a, rx);
    JoinedTwice(Parsed([m], [], a), p, Parse(p.assembly, p.rest + coming));
  }

  class RdpReceiver {
    var rx: seq<byte>
    const defrag: Defragmenter
    const stream: ByteStream

    ghost predicate Valid()
      reads this, defrag
    {
      defrag.Valid() && defrag.capacity == MAX_MESSAGE_LEN
    }

    constructor (stream: ByteStream)
      ensures Valid() && rx == [] && defrag.State() == EMPTY && this.stream == stream && fresh(defrag)
    {
      rx := [];
      defrag := new Defragmenter(MAX_MESSAGE_LEN);
      this.stream := stream;
    }

    /** What the buffered bytes alone come to. */
    function Buffered(): Parsed
      reads this, defrag
    {
      Parse(defrag.State(), rx)
    }

    method PopMessage() returns (r: Option<Message>)
      requires Valid()
      modifies this, defrag
      ensures Valid()
      ensures old(Buffered()) == Joined(Parsed(AsList(r), [], defrag.State()), Buffered())
      ensures r == None ==> old(Buffered()) == Parsed([], rx, defrag.State())
      ensures r.Some? ==> |rx| < |old(rx)|
    {
      ghost var goal := Buffered();
      var pos := Position(rx);
      while pos < |rx|
        invariant Valid() && pos == Position(rx) && |rx| <= |old(rx)|
        invariant Buffered() == goal
        decreases |rx|
      {
        var chunk := rx[..pos];
        ghost var was := defrag.State();
        rx := rx[pos + 1..];
        if chunk != [] {
          var scratch := new byte[MAX_RAW_FRAME_LEN](_ => 0);
          var f := DecodeFrame(chunk, scratch);
          if f.Ok? {
            var fed := defrag.Feed(f.value);
            if fed.Complete? {
              assert HandleChunk(was, chunk, MAX_RAW_FRAME_LEN, MAX_MESSAGE_LEN)
                  == (defrag.State(), Some(Message(f.value.header.number, fed.payload)));
              return Some(Message(f.value.header.number, fed.payload));
            }
          }
        }
        assert HandleChunk(was, chunk, MAX_RAW_FRAME_LEN, MAX_MESSAGE_LEN) == (defrag.State(), None);
        pos := Position(rx);
      }
      return None;
    }

    method RecvMessage() returns (r: Result<Message, RecvError>)
      requires Valid()
      modifies this, defrag, stream
      ensures Valid()
      ensures var before := old(Parse(defrag.State(), rx + UntilStop(stream.readings)));
        match r
        case Ok(m) =>
          && before == Joined(Parsed([m], [], defrag.State()), Parse(defrag.State(), rx + UntilStop(stream.readings)))
          && StopOf(stream.readings) == old(StopOf(stream.readings))
          && AfterStop(stream.readings) == old(AfterStop(stream.readings))
        case Err(e) =>
          before == Parsed([], rx, defrag.State()) && e == old(StopOf(stream.readings))
          && stream.readings == old(AfterStop(stream.readings))
    {
      ghost var goal := Parse(defrag.State(), rx + UntilStop(stream.readings));
      while true
        invariant Valid()
        invariant Parse(defrag.State(), rx + UntilStop(stream.readings)) == goal
        invariant StopOf(stream.readings) == old(StopOf(stream.readings))
        invariant AfterStop(stream.readings) == old(AfterStop(stream.readings))
        decreases |stream.readings|
      {
        ghost var a0, rx0, coming := defrag.State(), rx, UntilStop(stream.readings);
        var m := PopMessage();
        if m.Some? {
          PoppedThenRest(a0, rx0, coming, m.value, defrag.State(), rx);
          return Ok(m.value);
        }
        var reading := stream.Read();
        if reading.Broken? {
          NothingPopped(a0, rx0, [], [], defrag.State(), rx);
          return Err(ReadFailed);
        }
        if reading.data == [] {
          NothingPopped(a0, rx0, [], [], defrag.State(), rx);
          return Err(ConnectionClosed);
        }
        NothingPopped(a0, rx0, reading.data, UntilStop(stream.readings), defrag.State(), rx);
        rx := rx + reading.data;
      }
    }
  }
}
