/** Chunked reading and writing of the tune page by the host (client/src/client.rs, protocol/src/opcode.rs). */
module EcuClient {
  import opened Bytes
  import opened Legacy
  import opened Packet
  import opened Tune
  import Defrag
  import Demux
  import DualStack

  datatype ClientError = Protocol(error: ProtocolError) | NoAnswer | EmptyResponse | EcuError(code: byte)
                       | UnexpectedLength(expected: nat, got: nat)

  function Be(v: u16): seq<byte> { [Hi(v), Lo(v)] }

  function ReadPayload(page: u16, offset: u16, length: u16): seq<byte> {
    [CMD_READ] + Be(page) + Be(offset) + Be(length)
  }

  function WritePayload(page: u16, offset: u16, data: seq<byte>): seq<byte> {
    [CMD_WRITE] + Be(page) + Be(offset) + data
  }

  /** Requests on the wire: the command letter, then page, offset and length with their high bytes first. */
  lemma RequestBytes(page: u16, offset: u16, length: u16, data: seq<byte>)
    ensures ReadPayload(page, offset, length) ==
            [0x52, page / 0x100, page % 0x100, offset / 0x100, offset % 0x100, length / 0x100, length % 0x100]
    ensures WritePayload(page, offset, data) ==
            [0x43, page / 0x100, page % 0x100, offset / 0x100, offset % 0x100] + data
  {
  }

  function Truncated(n: nat): u16 { n % 0x1_0000 }

  /** What the host gets back for one request. */
  function Exchanged(t: TuneState, config: seq<byte>, req: seq<byte>): Result<seq<byte>, ClientError> {
    if req == [] then Err(Protocol(EmptyPayload))
    else if |req| > MAX_PAYLOAD_LEN then Err(Protocol(PayloadTooLarge))
    else
      match Answered(ReplyTo(t, config, req), |config| + 8)
      case None => Err(NoAnswer)
      case Some(b) =>
        if |b| > 0xFFFF then Err(NoAnswer) else if |b| > MAX_PAYLOAD_LEN then Err(Protocol(PayloadTooLarge)) else Ok(b)
  }

  function Checked(r: Result<seq<byte>, ClientError>): Result<seq<byte>, ClientError> {
    match r
    case Err(_) => r
    case Ok(b) => if b == [] then Err(EmptyResponse) else if b[0] != OK then Err(EcuError(b[0])) else r
  }

  /** Configuration after one request that the host could send. */
  function ConfigAfterRequest(req: seq<byte>, config: seq<byte>): seq<byte> {
    if |req| > MAX_PAYLOAD_LEN then config else ConfigAfter(req, config)
  }

  function Min(a: nat, b: nat): nat { if a < b then a else b }

  /** Bytes of a range that end up in the page: all of it, or the whole chunks in front of the first that does not fit. */
  function Accepted(size: nat, offset: nat, n: nat, chunk: nat): nat
    requires chunk > 0 || n == 0
  {
    if n == 0 || offset + n <= size then n
    else if size < offset then 0
    else (size - offset) / chunk * chunk
  }

  lemma SameLowBits(offset: nat, n: nat)
    requires Truncated(offset) + n < 0x1_0000
    ensures Truncated(offset + n) == Truncated(offset) + n
  {
  }

  lemma OneMoreChunk(a: nat, chunk: nat)
    requires chunk > 0 && a >= chunk
    ensures a / chunk * chunk == chunk + (a - chunk) / chunk * chunk
  {
    var q := (a - chunk) / chunk;
    assert a - chunk == q * chunk + (a - chunk) % chunk;
    assert (q + 1) * chunk == q * chunk + chunk && (q + 2) * chunk == q * chunk + chunk + chunk;
    QuotientIs(a, chunk, q + 1);
  }

  lemma AcceptedStep(size: nat, offset: nat, n: nat, chunk: nat)
    requires 0 < chunk <= n && offset + chunk <= size
    ensures Accepted(size, offset, n, chunk) == chunk + Accepted(size, offset + chunk, n - chunk, chunk)
  {
    if offset + n > size {
      OneMoreChunk(size - offset, chunk);
    }
  }

  lemma EmptyWritesNothing(config: seq<byte>)
    ensures ConfigAfter([], config) == config
  {
  }

  lemma AnswersAreNotEmpty(t: TuneState, config: seq<byte>, req: seq<byte>)
    ensures !ReplyTo(t, config, req).Silent? ==> ReplyBytes(ReplyTo(t, config, req)) != []
  {
  }

  lemma WriteParts(page: u16, offset: u16, data: seq<byte>)
    ensures var req := WritePayload(page, offset, data);
      |req| == 5 + |data| && req[0] == CMD_WRITE && WriteOffset(req) == Some(offset) && req[5..] == data
  {
    Split16(offset, 0, 0);
  }

  lemma OneWrite(t: TuneState, config: seq<byte>, page: u16, offset: u16, data: seq<byte>)
    ensures var req := WritePayload(page, offset, data);
      if 5 + |data| > MAX_PAYLOAD_LEN
      then Checked(Exchanged(t, config, req)) == Err(Protocol(PayloadTooLarge)) && ConfigAfterRequest(req, config) == config
      else if offset + |data| <= |config|
      then Checked(Exchanged(t, config, req)).Ok? && ConfigAfterRequest(req, config) == Spliced(config, offset, data)
      else Checked(Exchanged(t, config, req)) == Err(EcuError(REJECTED)) && ConfigAfterRequest(req, config) == config
  {
    hide WritePayload;
    WriteParts(page, offset, data);
  }

  /** The answer to a request for `length` bytes from `offset` on, as the host gets it. */
  function ReadAnswer(config: seq<byte>, offset: nat, length: u16): Result<seq<byte>, ClientError> {
    if offset + length > |config| then Err(EcuError(REJECTED))
    else if 1 + length > 0xFFFF then Err(NoAnswer)
    else if 1 + length > MAX_PAYLOAD_LEN then Err(Protocol(PayloadTooLarge))
    else Ok([OK] + config[offset..offset + length])
  }

  /** How a first request for `chunk` bytes fails that no packet can answer; 16 bits of the length are sent. */
  function OversizedRead(size: nat, chunk: nat): ClientError {
    var length := Truncated(chunk);
    if length > size then EcuError(REJECTED)
    else if 1 + length > 0xFFFF then NoAnswer
    else if 1 + length > MAX_PAYLOAD_LEN then Protocol(PayloadTooLarge)
    else UnexpectedLength(chunk + 1, 1 + length)
  }

  lemma ReadParts(page: u16, offset: u16, length: u16)
    ensures var req := ReadPayload(page, offset, length);
      |req| == 7 && req[0] == CMD_READ && BeAt(req, 3) == Some(offset) && BeAt(req, 5) == Some(length)
  {
    Split16(offset, 0, 0);
    Split16(length, 0, 0);
  }

  lemma ReadReply(t: TuneState, config: seq<byte>, req: seq<byte>, offset: u16, length: u16)
    requires |req| == 7 && req[0] == CMD_READ && BeAt(req, 3) == Some(offset) && BeAt(req, 5) == Some(length)
    ensures ReplyTo(t, config, req) ==
            if offset + length <= |config| then Data(config[offset..offset + length]) else Code(REJECTED)
  {
  }

  /** An answer that the device can hold reaches the host if a packet can. */
  lemma ReplyArrives(t: TuneState, config: seq<byte>, req: seq<byte>)
    requires 0 < |req| <= MAX_PAYLOAD_LEN && !ReplyTo(t, config, req).Silent?
    requires |ReplyBytes(ReplyTo(t, config, req))| <= |config| + 8
    ensures var bytes := ReplyBytes(ReplyTo(t, config, req));
      Checked(Exchanged(t, config, req)) ==
      if |bytes| > 0xFFFF then Err(NoAnswer)
      else if |bytes| > MAX_PAYLOAD_LEN then Err(Protocol(PayloadTooLarge))
      else if bytes[0] == OK then Ok(bytes) else Err(EcuError(bytes[0]))
  {
    hide ReplyTo;
  }

  lemma OneRead(t: TuneState, config: seq<byte>, page: u16, offset: u16, chunk: nat)
    ensures var req := ReadPayload(page, offset, Truncated(chunk));
      && ConfigAfterRequest(req, config) == config
      && Checked(Exchanged(t, config, req)) == ReadAnswer(config, offset, Truncated(chunk))
  {
    hide ReadPayload, Exchanged, Checked, ReplyTo, BeAt;
    var req, length := ReadPayload(page, offset, Truncated(chunk)), Truncated(chunk);
    ReadParts(page, offset, length);
    ReadReply(t, config, req, offset, length);
    ReplyArrives(t, config, req);
  }

  // ── Chunk after chunk, for every page and blocking factor ────────────────

  /** What writing a range does: each chunk goes to the low 16 bits of its offset, and the first refused one ends it. */
  function WriteOutcome(config: seq<byte>, offset: nat, data: seq<byte>, factor: nat): (r: (Result<(), ClientError>, seq<byte>))
    requires factor > 0 || data == [] || Truncated(offset) > |config|
    ensures |r.1| == |config|
    decreases |data|
  {
    if data == [] then (Ok(()), config) else
    var n, at: nat := Min(factor, |data|), Truncated(offset);
    if 5 + n > MAX_PAYLOAD_LEN then (Err(Protocol(PayloadTooLarge)), config)
    else if at + n > |config| then (Err(EcuError(REJECTED)), config)
    else WriteOutcome(Spliced(config, at, data[..n]), offset + n, data[n..], factor)
  }

  /** One turn of the writing loop. */
  lemma WriteTurn(config: seq<byte>, offset: nat, data: seq<byte>, factor: nat, pos: nat, end: nat)
    requires pos < |data| && (factor > 0 || Truncated(offset + pos) > |config|)
    requires end == if pos + factor < |data| then pos + factor else |data|
    ensures var at: nat := Truncated(offset + pos);
      WriteOutcome(config, offset + pos, data[pos..], factor) ==
      if 5 + (end - pos) > MAX_PAYLOAD_LEN then (Err(Protocol(PayloadTooLarge)), config)
      else if at + (end - pos) > |config| then (Err(EcuError(REJECTED)), config)
      else WriteOutcome(Spliced(config, at, data[pos..end]), offset + end, data[end..], factor)
  {
    hide Spliced, Truncated;
    var left := data[pos..];
    assert data[pos..end] == left[..end - pos] && data[end..] == left[end - pos..];
  }

  function Behind(head: seq<byte>, r: Result<seq<byte>, ClientError>): Result<seq<byte>, ClientError> {
    match r case Ok(tail) => Ok(head + tail) case Err(e) => Err(e)
  }

  /** What reading `total` bytes from `offset` on gives. */
  function ReadOutcome(config: seq<byte>, offset: nat, total: nat, factor: nat): Result<seq<byte>, ClientError>
    requires factor > 0 || total == 0
    decreases total
  {
    if total == 0 then Ok([]) else
    var n := Min(factor, total);
    match ReadAnswer(config, Truncated(offset), Truncated(n))
    case Err(e) => Err(e)
    case Ok(b) =>
      if |b| != n + 1 then Err(UnexpectedLength(n + 1, |b|))
      else Behind(b[1..], ReadOutcome(config, offset + n, total - n, factor))
  }

  lemma BehindNothing(r: Result<seq<byte>, ClientError>)
    ensures Behind([], r) == r
  {
    if r.Ok? {
      assert [] + r.value == r.value;
    }
  }

  lemma BehindTwice(x: seq<byte>, y: seq<byte>, r: Result<seq<byte>, ClientError>)
    ensures Behind(x, Behind(y, r)) == Behind(x + y, r)
  {
    if r.Ok? {
      assert x + (y + r.value) == x + y + r.value;
    }
  }

  /** One turn of the reading loop, with `head` read before. */
  lemma ReadTurn(config: seq<byte>, offset: nat, total: nat, factor: nat, head: seq<byte>)
    requires factor > 0 && total > 0
    ensures var n := Min(factor, total);
      Behind(head, ReadOutcome(config, offset, total, factor)) ==
      match ReadAnswer(config, Truncated(offset), Truncated(n))
      case Err(e) => Err(e)
      case Ok(b) => if |b| != n + 1 then Err(UnexpectedLength(n + 1, |b|))
                    else Behind(head + b[1..], ReadOutcome(config, offset + n, total - n, factor))
  {
    hide ReadAnswer, Truncated;
    var n := Min(factor, total);
    var answer := ReadAnswer(config, Truncated(offset), Truncated(n));
    if answer.Ok? && |answer.value| == n + 1 {
      BehindTwice(head, answer.value[1..], ReadOutcome(config, offset + n, total - n, factor));
    }
  }

  lemma AllRead(config: seq<byte>, offset: nat, factor: nat, head: seq<byte>)
    ensures Behind(head, ReadOutcome(config, offset, 0, factor)) == Ok(head)
  {
    assert head + [] == head;
  }

  lemma NothingWritten(config: seq<byte>, offset: nat, factor: nat)
    ensures WriteOutcome(config, offset, [], factor) == (Ok(()), config)
  {
  }

  /** The outcome of an exchange is what the two framings make of the request and of the device's answer. */
  lemma ExchangeOutcome(t: TuneState, config: seq<byte>, req: seq<byte>)
    ensures Checked(Exchanged(t, config, req)) ==
      if req == [] then Err(Protocol(EmptyPayload))
      else if |req| > 32768 then Err(Protocol(PayloadTooLarge))
      else
        match FrameAnswered(t, config, req)
        case None => Err(NoAnswer)
        case Some(frame) =>
          match ReceivePacket(frame)
          case Err(e) => Err(Protocol(e))
          case Ok(b) => if b == [] then Err(EmptyResponse) else if b[0] != 0 then Err(EcuError(b[0])) else Ok(b)
  {
    hide ReplyTo, LegacyFrame, ReceivePacket, ReplyBytes;
    AnswersAreNotEmpty(t, config, req);
    var answer := Answered(ReplyTo(t, config, req), |config| + 8);
    if answer.Some? && |answer.value| <= 0xFFFF {
      ReceiveFrame(answer.value, []);
      assert LegacyFrame(answer.value) + [] == LegacyFrame(answer.value);
    }
  }

  class EcuClient {
    const device: TuneDevice
    var blockingFactor: nat

    constructor (device: TuneDevice, blockingFactor: nat)
      ensures this.device == device && this.blockingFactor == blockingFactor
    {
      this.device, this.blockingFactor := device, blockingFactor;
    }

    /** Send a request, let the device serve it, take its answer off the stream, check its first byte. */
    method ExecuteOk(req: seq<byte>) returns (r: Result<seq<byte>, ClientError>)
      modifies device.config, device`burnPending
      ensures device.config[..] == ConfigAfterRequest(req, old(device.config[..]))
      ensures r == Checked(Exchanged(device.state, old(device.config[..]), req))
    {
      hide ReplyTo, ConfigAfter, DecodeLegacy, LegacyFrame, ReceivePacket, ReplyBytes;
      var framed := EncodePacketVec(req);
      if framed.Err? {
        EmptyWritesNothing(device.config[..]);
        return Err(Protocol(framed.error));
      }
      DecodeLegacyFrame(req, []);
      assert framed.value + [] == framed.value;
      var answer := device.ServeFrame(framed.value);
      if answer.None? {
        return Err(NoAnswer);
      }
      ghost var b := Answered(ReplyTo(device.state, old(device.config[..]), req), device.config.Length + 8).value;
      ReceiveFrame(b, []);
      assert answer.value + [] == answer.value;
      match ReceivePacket(answer.value)
      case Err(e) =>
        AnswersAreNotEmpty(device.state, old(device.config[..]), req);
        return Err(Protocol(e));
      case Ok(response) =>
        if response == [] {
          return Err(EmptyResponse);
        }
        if response[0] != OK {
          return Err(EcuError(response[0]));
        }
        return Ok(response);
    }

    /** Writes the chunks one after the other until one is refused. */
    method WriteChunk(page: u16, offset: nat, data: seq<byte>) returns (r: Result<(), ClientError>)
      requires blockingFactor > 0 || data == [] || Truncated(offset) > device.config.Length
      modifies device.config, device`burnPending
      ensures (r, device.config[..]) == WriteOutcome(old(device.config[..]), offset, data, blockingFactor)
    {
      hide Exchanged, ConfigAfterRequest, Spliced, Checked, WritePayload, WriteOutcome, Truncated;
      ghost var config := device.config[..];
      ghost var goal := WriteOutcome(config, offset, data, blockingFactor);
      var pos := 0;
      assert data[0..] == data;
      while pos < |data|
        invariant pos <= |data| && device.config[..] == config
        invariant blockingFactor > 0 || data[pos..] == [] || Truncated(offset + pos) > |config|
        invariant WriteOutcome(config, offset + pos, data[pos..], blockingFactor) == goal
      {
        var end := if pos + blockingFactor < |data| then pos + blockingFactor else |data|;
        WriteTurn(config, offset, data, blockingFactor, pos, end);
        OneWrite(device.state, config, page, Truncated(offset + pos), data[pos..end]);
        var answer := ExecuteOk(WritePayload(page, Truncated(offset + pos), data[pos..end]));
        if answer.Err? {
          return Err(answer.error);
        }
        config, pos := device.config[..], end;
      }
      NothingWritten(config, offset + pos, blockingFactor);
      return Ok(());
    }

    /** Reads the first `total` bytes of the page. */
    method ReadImage(total: nat) returns (r: Result<seq<byte>, ClientError>)
      requires blockingFactor > 0 || total == 0
      modifies device.config, device`burnPending
      ensures device.config[..] == old(device.config[..])
      ensures r == ReadOutcome(device.config[..], 0, total, blockingFactor)
    {
      hide Exchanged, ConfigAfterRequest, Checked, ReadAnswer, ReadOutcome, Behind, Truncated;
      ghost var config := device.config[..];
      ghost var goal := ReadOutcome(config, 0, total, blockingFactor);
      var image := seq(total, _ => 0);
      var offset := 0;
      ghost var head: seq<byte> := [];
      BehindNothing(goal);
      while offset < total
        invariant offset <= total == |image| && device.config[..] == config && image[..offset] == head
        invariant goal == Behind(head, ReadOutcome(config, offset, total - offset, blockingFactor))
      {
        var chunk := if total - offset < blockingFactor then total - offset else blockingFactor;
        OneRead(device.state, config, 0, Truncated(offset), chunk);
        ReadTurn(config, offset, total - offset, blockingFactor, head);
        var answer := ExecuteOk(ReadPayload(0, Truncated(offset), Truncated(chunk)));
        if answer.Err? {
          return Err(answer.error);
        }
        if |answer.value| != chunk + 1 {
          return Err(UnexpectedLength(chunk + 1, |answer.value|));
        }
        image := image[..offset] + answer.value[1..] + image[offset + chunk..];
        head, offset := head + answer.value[1..], offset + chunk;
        assert image[..offset] == head;
      }
      AllRead(config, offset, blockingFactor, head);
      assert image[..total] == image;
      return Ok(image);
    }
  }

  // ── ... and in closed form, where 16 bits of the offset are enough ───────

  /** Where the last chunk of `n` bytes begins. */
  function LastChunk(n: nat, factor: nat): nat
    requires factor > 0 && n > 0
  {
    (n - 1) / factor * factor
  }

  lemma LastChunkStep(n: nat, factor: nat)
    requires 0 < factor < n
    ensures LastChunk(n, factor) == factor + LastChunk(n - factor, factor)
  {
    OneMoreChunk(n - 1, factor);
  }

  /** Every chunk of a range begins below 2^16, so the offsets that are sent are the true ones. */
  predicate Addressable(offset: nat, n: nat, factor: nat)
    requires factor > 0
  {
    n == 0 || offset + LastChunk(n, factor) < 0x1_0000
  }

  lemma AddressableStep(offset: nat, n: nat, factor: nat)
    requires 0 < factor < n && Addressable(offset, n, factor)
    ensures offset + factor < 0x1_0000 && Addressable(offset + factor, n - factor, factor)
  {
    hide LastChunk;
    LastChunkStep(n, factor);
  }

  /** In a page of less than 2^16 bytes, and in an addressable range, the chunk behind an accepted one has its true offset. */
  lemma NextOffset(offset: nat, n: nat, factor: nat, size: nat)
    requires 0 < factor < n && Truncated(offset) + factor <= size
    requires size < 0x1_0000 || Addressable(Truncated(offset), n, factor)
    ensures Truncated(offset + factor) == Truncated(offset) + factor
    ensures size < 0x1_0000 || Addressable(Truncated(offset + factor), n - factor, factor)
  {
    if size >= 0x1_0000 {
      AddressableStep(Truncated(offset), n, factor);
    }
    SameLowBits(offset, factor);
  }

  lemma SpliceTwice(config: seq<byte>, at: nat, data: seq<byte>, n: nat, m: nat)
    requires n <= m <= |data| && at + m <= |config|
    ensures Spliced(Spliced(config, at, data[..n]), at + n, data[n..m]) == Spliced(config, at, data[..m])
  {
    assert data[..m] == data[..n] + data[n..m];
  }

  lemma NothingSpliced(config: seq<byte>, at: nat)
    requires at <= |config|
    ensures Spliced(config, at, []) == config
  {
  }

  /** The accepted bytes of a range replace those of the page; the rest of the page stays. */
  function Overwritten(config: seq<byte>, at: nat, data: seq<byte>): seq<byte>
  {
    if data == [] || at + |data| > |config| then config else Spliced(config, at, data)
  }

  lemma AcceptedFits(size: nat, offset: nat, n: nat, chunk: nat)
    requires chunk > 0 && offset <= size
    ensures Accepted(size, offset, n, chunk) <= n && offset + Accepted(size, offset, n, chunk) <= size
  {
    if n > 0 && offset + n > size {
      assert size - offset == (size - offset) / chunk * chunk + (size - offset) % chunk;
    }
  }

  /** The first chunk and what the rest comes to make up what the whole range comes to. */
  lemma ChunkAndRest(config: seq<byte>, at: nat, data: seq<byte>, factor: nat)
    requires 0 < factor < |data| && at + factor <= |config|
    ensures var m := Accepted(|config|, at + factor, |data| - factor, factor);
      && m <= |data| - factor && Accepted(|config|, at, |data|, factor) == factor + m
      && Overwritten(Spliced(config, at, data[..factor]), at + factor, data[factor..][..m]) == Overwritten(config, at, data[..factor + m])
  {
    hide Accepted, Spliced;
    var m := Accepted(|config|, at + factor, |data| - factor, factor);
    AcceptedStep(|config|, at, |data|, factor);
    AcceptedFits(|config|, at + factor, |data| - factor, factor);
    assert data[factor..][..m] == data[factor..factor + m];
    SpliceTwice(config, at, data, factor, factor + m);
  }

  lemma FirstRefused(size: nat, offset: nat, n: nat, chunk: nat)
    requires chunk > 0 && n > 0 && offset + Min(chunk, n) > size
    ensures Accepted(size, offset, n, chunk) == 0
  {
    if offset <= size {
      QuotientIs(size - offset, chunk, 0);
    }
  }

  /** A range that is one chunk, or whose first chunk is refused. */
  lemma OneChunkInPlace(config: seq<byte>, offset: nat, data: seq<byte>, factor: nat)
    requires factor > 0
    requires var n := Min(factor, |data|);
      data == [] || 5 + n > MAX_PAYLOAD_LEN || n == |data| || Truncated(offset) + n > |config|
    ensures if 5 + Min(factor, |data|) > MAX_PAYLOAD_LEN then
              WriteOutcome(config, offset, data, factor) == (Err(Protocol(PayloadTooLarge)), config)
            else
              var n := Accepted(|config|, Truncated(offset), |data|, factor);
              n <= |data| &&
              WriteOutcome(config, offset, data, factor) ==
              (if n == |data| then Ok(()) else Err(EcuError(REJECTED)), Overwritten(config, Truncated(offset), data[..n]))
  {
    hide Spliced, Truncated;
    var at, n: nat := Truncated(offset), Min(factor, |data|);
    assert data[..|data|] == data;
    if data != [] && at + n > |config| {
      FirstRefused(|config|, at, |data|, factor);
    }
  }

  /**
   * Within the page the whole range is replaced; otherwise the page holds exactly the chunks in front
   * of the first that does not fit. Chunks too large for a packet are not sent.
   */
  lemma {:induction false} WritesInPlace(config: seq<byte>, offset: nat, data: seq<byte>, factor: nat)
    requires factor > 0 && (|config| < 0x1_0000 || Addressable(Truncated(offset), |data|, factor))
    ensures if 5 + Min(factor, |data|) > 32768 then
              WriteOutcome(config, offset, data, factor) == (Err(Protocol(PayloadTooLarge)), config)
            else
              var n := Accepted(|config|, Truncated(offset), |data|, factor);
              n <= |data| &&
              WriteOutcome(config, offset, data, factor) ==
              (if n == |data| then Ok(()) else Err(EcuError(1)), Overwritten(config, Truncated(offset), data[..n]))
    decreases |data|
  {
    hide Spliced, Addressable, Accepted, Overwritten, Truncated;
    var at, n: nat := Truncated(offset), Min(factor, |data|);
    if data == [] || 5 + n > MAX_PAYLOAD_LEN || n == |data| || at + n > |config| {
      OneChunkInPlace(config, offset, data, factor);
    } else {
      NextOffset(offset, |data|, factor, |config|);
      WritesInPlace(Spliced(config, at, data[..n]), offset + n, data[n..], factor);
      ChunkAndRest(config, at, data, factor);
    }
  }

  lemma ChunkRead(config: seq<byte>, offset: nat, n: nat)
    requires offset < 0x1_0000 && n < MAX_PAYLOAD_LEN
    ensures ReadAnswer(config, Truncated(offset), Truncated(n)) ==
            if offset + n <= |config| then Ok([OK] + config[offset..offset + n]) else Err(EcuError(REJECTED))
  {
  }

  lemma ReadStep(config: seq<byte>, offset: nat, total: nat, factor: nat)
    requires factor > 0 && total > 0 && offset < 0x1_0000 && Min(factor, total) < MAX_PAYLOAD_LEN
    ensures var n := Min(factor, total);
      ReadOutcome(config, offset, total, factor) ==
      if offset + n <= |config| then Behind(config[offset..offset + n], ReadOutcome(config, offset + n, total - n, factor))
      else Err(EcuError(REJECTED))
  {
    hide ReadAnswer;
    ChunkRead(config, offset, Min(factor, total));
  }

  lemma NothingRead(config: seq<byte>, offset: nat, factor: nat)
    ensures ReadOutcome(config, offset, 0, factor) == Ok([])
  {
  }

  lemma NothingAddressable(offset: nat, factor: nat)
    requires factor > 0
    ensures Addressable(offset, 0, factor)
  {
  }

  /** Reads whose chunks fit a packet give that range of the page, and are refused exactly if it does not reach so far. */
  lemma {:induction false} ReadsInPlace(config: seq<byte>, offset: nat, total: nat, factor: nat)
    requires factor > 0 && offset <= |config| && (offset < 0x1_0000 || total == 0)
    requires |config| < 0x1_0000 || Addressable(offset, total, factor)
    requires Min(factor, total) < MAX_PAYLOAD_LEN
    ensures ReadOutcome(config, offset, total, factor) ==
            if offset + total <= |config| then Ok(config[offset..offset + total]) else Err(EcuError(REJECTED))
    decreases total
  {
    hide Addressable, ReadOutcome;
    var n := Min(factor, total);
    if total == 0 {
      NothingRead(config, offset, factor);
    } else {
      ReadStep(config, offset, total, factor);
      if offset + n <= |config| {
        var later := total - n;
        if n < total && |config| >= 0x1_0000 {
          AddressableStep(offset, total, factor);
        }
        NothingAddressable(offset + n, factor);
        ReadsInPlace(config, offset + n, later, factor);
        if offset + total <= |config| {
          assert config[offset..offset + n] + config[offset + n..offset + total] == config[offset..offset + total];
        }
      }
    }
  }

  /** A chunk too large for a packet fails at the first request. */
  lemma OversizedReadFails(config: seq<byte>, total: nat, factor: nat)
    requires Min(factor, total) >= 32768
    ensures ReadOutcome(config, 0, total, factor) == Err(OversizedRead(|config|, Min(factor, total)))
  {
  }

  lemma FirstChunkRead(config: seq<byte>, offset: nat, total: nat, factor: nat)
    requires factor > 0 && total > 0 && ReadOutcome(config, offset, total, factor).Ok?
    ensures var n, at: nat := Min(factor, total), Truncated(offset);
      && at + n <= |config| && ReadOutcome(config, offset + n, total - n, factor).Ok?
      && ReadOutcome(config, offset, total, factor).value ==
         config[at..at + n] + ReadOutcome(config, offset + n, total - n, factor).value
  {
  }

  /** The first byte of each chunk comes from the low 16 bits of its offset. */
  lemma {:induction false} ChunkBegins(config: seq<byte>, offset: nat, total: nat, factor: nat, k: nat)
    requires factor > 0 && ReadOutcome(config, offset, total, factor).Ok? && k * factor < total
    ensures var image := ReadOutcome(config, offset, total, factor).value;
      && k * factor < |image| && Truncated(offset + k * factor) < |config|
      && image[k * factor] == config[Truncated(offset + k * factor)]
    decreases total
  {
    hide ReadOutcome, Truncated;
    FirstChunkRead(config, offset, total, factor);
    if k == 0 {
    } else {
      assert k * factor == factor + (k - 1) * factor;
      ProductMonotone(0, k - 1, factor);
      ChunkBegins(config, offset + factor, total - factor, factor, k - 1);
    }
  }

  /** Whatever the page holds, reading gives its first `total` bytes. */
  ghost predicate ReadsFaithfully(size: nat, total: nat, factor: nat)
    requires factor > 0
  {
    forall config: seq<byte> | |config| == size :: total <= size && ReadOutcome(config, 0, total, factor) == Ok(config[..total])
  }

  lemma LastChunkInside(n: nat, factor: nat)
    requires factor > 0 && n > 0
    ensures (n - 1) / factor * factor == LastChunk(n, factor) < n
  {
    assert n - 1 == (n - 1) / factor * factor + (n - 1) % factor;
  }

  lemma UnfaithfulRead(size: nat, total: nat, factor: nat)
    requires factor > 0 && !(total <= size && Min(factor, total) < MAX_PAYLOAD_LEN && Addressable(0, total, factor))
    ensures !ReadsFaithfully(size, total, factor)
  {
    hide ReadOutcome;
    var config: seq<byte> := seq(size, i => if i < 0x1_0000 then 0 else 1);
    if total <= size {
      if Min(factor, total) >= MAX_PAYLOAD_LEN {
        OversizedReadFails(config, total, factor);
      } else {
        var k := (total - 1) / factor;
        LastChunkInside(total, factor);
        assert config[..total][k * factor] == config[k * factor] == 1;
        if ReadOutcome(config, 0, total, factor) == Ok(config[..total]) {
          ChunkBegins(config, 0, total, factor, k);
        }
      }
    }
    assert |config| == size;
  }

  /**
   * For every size of the page: reading is faithful, whatever the page holds, exactly if it holds that many
   * bytes, a chunk and its code fit a packet, and every chunk begins below 2^16.
   */
  lemma ReadsFaithfullyIff(size: nat, total: nat, factor: nat)
    requires factor > 0
    ensures ReadsFaithfully(size, total, factor) <==>
            total <= size && Min(factor, total) < 32768 && Addressable(0, total, factor)
  {
    hide ReadOutcome, Addressable, LastChunk;
    if total <= size && Min(factor, total) < MAX_PAYLOAD_LEN && Addressable(0, total, factor) {
      forall config: seq<byte> | |config| == size ensures ReadOutcome(config, 0, total, factor) == Ok(config[..total]) {
        ReadsInPlace(config, 0, total, factor);
      }
    } else {
      UnfaithfulRead(size, total, factor);
    }
  }

  lemma WriteFits(config: seq<byte>, offset: nat, data: seq<byte>, factor: nat)
    requires factor > 0 && offset + |data| <= |config| && Addressable(offset, |data|, factor)
    ensures WriteOutcome(config, offset, data, factor) ==
            if 5 + Min(factor, |data|) > MAX_PAYLOAD_LEN then (Err(Protocol(PayloadTooLarge)), config)
            else (Ok(()), Spliced(config, offset, data))
  {
    hide WriteOutcome, Spliced;
    if data == [] {
      NothingSpliced(config, offset);
      NothingWritten(config, offset, factor);
    } else {
      assert Truncated(offset) == offset;
      WritesInPlace(config, offset, data, factor);
      assert data[..|data|] == data;
    }
  }

  /**
   * In a page whose chunks, read or written, begin below 2^16: writing a range and reading the page
   * back shows the old page with that range replaced exactly if the chunks fit a packet both ways.
   */
  lemma WriteThenReadIff(config: seq<byte>, offset: nat, data: seq<byte>, factor: nat)
    requires factor > 0 && offset + |data| <= |config|
    requires Addressable(offset, |data|, factor) && Addressable(0, |config|, factor)
    ensures var (r, written) := WriteOutcome(config, offset, data, factor);
      r.Ok? && ReadOutcome(written, 0, |config|, factor) == Ok(Spliced(config, offset, data)) <==>
      5 + Min(factor, |data|) <= 32768 && Min(factor, |config|) < 32768
  {
    hide ReadOutcome, WriteOutcome, Spliced, Addressable;
    var (r, written) := WriteOutcome(config, offset, data, factor);
    WriteFits(config, offset, data, factor);
    if Min(factor, |config|) >= MAX_PAYLOAD_LEN {
      OversizedReadFails(written, |config|, factor);
    } else {
      ReadsInPlace(written, 0, |config|, factor);
      assert written[0..|config|] == written;
    }
  }

  // ── A blocking factor of zero ────────────────────────────────────────────

  /**
   * With a blocking factor of zero a turn of either loop is accepted and leaves everything as it was, so
   * the loop does not end, except for a write whose first request is refused as it begins past the page.
   */
  lemma ZeroFactorRepeats(t: TuneState, config: seq<byte>, page: u16, offset: nat)
    ensures Checked(Exchanged(t, config, ReadPayload(0, 0, 0))) == Ok([OK])
    ensures var req := WritePayload(page, Truncated(offset), []);
      && (Checked(Exchanged(t, config, req)).Ok? <==> Truncated(offset) <= |config|)
      && ConfigAfterRequest(req, config) == config
  {
    hide Exchanged, Checked, WritePayload, ReadPayload, ReadAnswer, ConfigAfterRequest;
    OneRead(t, config, 0, 0, 0);
    ChunkRead(config, 0, 0);
    assert [OK] + config[0..0] == [OK];
    OneWrite(t, config, page, Truncated(offset), []);
    if Truncated(offset) <= |config| {
      NothingSpliced(config, Truncated(offset));
    }
  }

  /** On the shared serial line a write request is understood exactly if it carries at most 250 bytes. */
  lemma WriteRoutedIffShort(a: Defrag.Assembly, page: u16, offset: u16, data: seq<byte>)
    requires 5 + |data| < 0x1_0000
    ensures var req := WritePayload(page, offset, data);
      Demux.NextFrame(a, LegacyFrame(req)) == Demux.Take(|LegacyFrame(req)|, [Demux.LegacyRequest(req)], a) <==> |data| <= 250
  {
    hide WritePayload, LegacyFrame, Demux.NextFrame;
    WriteParts(page, offset, data);
    var req := WritePayload(page, offset, data);
    DualStack.LegacyRoutedIffShort(a, req, []);
    assert LegacyFrame(req) + [] == LegacyFrame(req);
  }

  /** A write of 251 bytes is not taken as a legacy request. */
  lemma WriteOf251BytesNotUnderstood(a: Defrag.Assembly)
    ensures var req := WritePayload(0, 0, seq(251, _ => 0));
      && |req| == 256
      && Demux.NextFrame(a, LegacyFrame(req)) != Demux.Take(|LegacyFrame(req)|, [Demux.LegacyRequest(req)], a)
  {
    hide WritePayload, LegacyFrame, Demux.NextFrame;
    var data: seq<byte> := seq(251, _ => 0);
    WriteParts(0, 0, data);
    WriteRoutedIffShort(a, 0, 0, data);
  }
}
