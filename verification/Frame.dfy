/** The frame layer (device-api/src/frame.rs): raw frames, COBS frames, and messages cut into fragments. */
module Frame {
  import opened Bytes
  import opened Crc16
  import opened Cobs

  const VERSION: byte := 0x01
  const HEADER_LEN := 6
  const CRC_LEN := 2
  const MAX_PAYLOAD_LEN := 512
  const MAX_RAW_FRAME_LEN := HEADER_LEN + MAX_PAYLOAD_LEN + CRC_LEN
  const DELIMITER: byte := 0x00

  // ── Flags: bit 1 marks a fragment, bit 2 the last one ────────────────────

  predicate IsFragment(flags: byte) { flags / 2 % 2 == 1 }

  predicate IsLast(flags: byte) { flags / 4 % 2 == 1 }

  function WithFragment(flags: byte): byte { if IsFragment(flags) then flags else flags + 2 }

  function WithLast(flags: byte): byte { if IsLast(flags) then flags else flags + 4 }

  /** Setting one flag sets that flag and leaves the other as it was. */
  lemma FragmentFlag(flags: byte)
    ensures IsFragment(WithFragment(flags))
    ensures IsLast(WithFragment(flags)) == IsLast(flags)
  {
  }

  lemma LastFlag(flags: byte)
    ensures IsLast(WithLast(flags))
    ensures IsFragment(WithLast(flags)) == IsFragment(flags)
  {
  }

  // ── Raw frames ───────────────────────────────────────────────────────────

  datatype FrameHeader = FrameHeader(version: byte, flags: byte, number: u16)

  datatype Frame = Frame(header: FrameHeader, payload: seq<byte>)

  datatype FrameError =
    | PayloadTooLarge
    | OutputTooSmall
    | TooShort
    | LengthMismatch
    | CrcMismatch
    | UnsupportedVersion(version: byte)
    | Stuffing(error: CobsError)

  function CrcBytes(covered: seq<byte>): (bytes: seq<byte>)
    ensures |bytes| == 2
  {
    [WordLo(Checksum(covered)), WordHi(Checksum(covered))]
  }

  /** The part of a raw frame that its checksum covers. */
  function Covered(f: Frame): (bytes: seq<byte>)
    requires |f.payload| < 0x1_0000
    ensures |bytes| == HEADER_LEN + |f.payload|
  {
    [f.header.version, f.header.flags, Lo(f.header.number), Hi(f.header.number),
     Lo(|f.payload|), Hi(|f.payload|)] + f.payload
  }

  function RawFrame(f: Frame): (bytes: seq<byte>)
    requires |f.payload| < 0x1_0000
    ensures |bytes| == HEADER_LEN + |f.payload| + CRC_LEN
  {
    Covered(f) + CrcBytes(Covered(f))
  }

  method PutHeader(header: FrameHeader, len: u16, out: array<byte>)
    requires HEADER_LEN <= out.Length
    modifies out
    ensures out[..HEADER_LEN] == [header.version, header.flags, Lo(header.number), Hi(header.number), Lo(len), Hi(len)]
  {
    out[0] := header.version;
    out[1] := header.flags;
    out[2] := header.number % 0x100;
    out[3] := header.number / 0x100;
    out[4] := len % 0x100;
    out[5] := len / 0x100;
  }

  method EncodeFrameRaw(header: FrameHeader, payload: seq<byte>, out: array<byte>)
    returns (r: Result<nat, FrameError>)
    modifies out
    ensures r == if |payload| > MAX_PAYLOAD_LEN then Err(PayloadTooLarge)
                 else if out.Length < HEADER_LEN + |payload| + CRC_LEN then Err(FrameError.OutputTooSmall)
                 else Ok(HEADER_LEN + |payload| + CRC_LEN)
    ensures r.Ok? ==> out[..r.value] == RawFrame(Frame(header, payload))
  {
    if |payload| <= MAX_PAYLOAD_LEN {
    } else {
      return Err(PayloadTooLarge);
    }
    var total := HEADER_LEN + |payload| + CRC_LEN;
    if out.Length < total {
      return Err(FrameError.OutputTooSmall);
    }
    var len := |payload|;
    PutHeader(header, len, out);
    forall i | 0 <= i < len {
      out[HEADER_LEN + i] := payload[i];
    }
    var crcAt := HEADER_LEN + len;
    ghost var covered := Covered(Frame(header, payload));
    assert out[..crcAt] == out[..HEADER_LEN] + payload == covered;
    var crc := Crc16Ccitt(out[..crcAt]);
    out[crcAt] := WordLo(crc);
    out[crcAt + 1] := WordHi(crc);
    assert out[..crcAt] == covered;
    assert out[..total] == covered + [out[crcAt], out[crcAt + 1]];
    return Ok(total);
  }

  function DecodeFrameRaw(raw: seq<byte>): Result<Frame, FrameError> {
    if |raw| < HEADER_LEN + CRC_LEN then Err(TooShort)
    else if raw[0] != VERSION then Err(UnsupportedVersion(raw[0]))
    else
      var len := From16(raw[4], raw[5]);
      if |raw| != HEADER_LEN + len + CRC_LEN then Err(LengthMismatch)
      else
        var crcAt := HEADER_LEN + len;
        if FromWordBytes(raw[crcAt], raw[crcAt + 1]) != Checksum(raw[..crcAt]) then Err(CrcMismatch)
        else Ok(Frame(FrameHeader(raw[0], raw[1], From16(raw[2], raw[3])), raw[HEADER_LEN..crcAt]))
  }

  lemma DecodeBuiltFrame(f: Frame)
    requires |f.payload| < 0x1_0000 && f.header.version == VERSION
    ensures DecodeFrameRaw(RawFrame(f)) == Ok(f)
  {
    var raw, covered := RawFrame(f), Covered(f);
    Split16(f.header.number, 0, 0);
    Split16(|f.payload|, 0, 0);
    WordBytes(Checksum(covered));
    var crcAt := HEADER_LEN + |f.payload|;
    assert raw[..crcAt] == covered;
    assert raw[HEADER_LEN..crcAt] == f.payload;
    assert raw[crcAt] == WordLo(Checksum(covered)) && raw[crcAt + 1] == WordHi(Checksum(covered));
  }

  lemma CoveredFromParts(b0: byte, b1: byte, b2: byte, b3: byte, b4: byte, b5: byte, payload: seq<byte>)
    requires |payload| == From16(b4, b5)
    ensures Covered(Frame(FrameHeader(b0, b1, From16(b2, b3)), payload)) == [b0, b1, b2, b3, b4, b5] + payload
  {
    var number, len := From16(b2, b3), From16(b4, b5);
    Split16(0, b2, b3);
    Split16(0, b4, b5);
    assert Lo(number) == b2 && Hi(number) == b3 && Lo(len) == b4 && Hi(len) == b5;
  }

  lemma SixBytesThen(raw: seq<byte>, n: nat)
    requires HEADER_LEN <= n <= |raw|
    ensures raw[..n] == [raw[0], raw[1], raw[2], raw[3], raw[4], raw[5]] + raw[HEADER_LEN..n]
  {
  }

  lemma CrcBytesFromWord(lo: byte, hi: byte, c: bv16)
    requires FromWordBytes(lo, hi) == c
    ensures lo == WordLo(c) && hi == WordHi(c)
  {
    BytesFromWord(lo, hi);
  }

  lemma AcceptedFrameWasBuilt(raw: seq<byte>)
    requires DecodeFrameRaw(raw).Ok?
    ensures var f := DecodeFrameRaw(raw).value;
      f.header.version == VERSION && |f.payload| < 0x1_0000 && raw == RawFrame(f)
  {
    var f, n := DecodeFrameRaw(raw).value, From16(raw[4], raw[5]);
    var crcAt := HEADER_LEN + n;
    CoveredFromParts(raw[0], raw[1], raw[2], raw[3], raw[4], raw[5], f.payload);
    SixBytesThen(raw, crcAt);
    CrcBytesFromWord(raw[crcAt], raw[crcAt + 1], Checksum(Covered(f)));
    assert raw == raw[..crcAt] + [raw[crcAt], raw[crcAt + 1]];
  }

  /** The decoder accepts a raw frame exactly when it is the one built from what it returns. */
  lemma DecodeExactlyInvertsBuild(raw: seq<byte>, f: Frame)
    requires |f.payload| < 0x1_0000
    ensures DecodeFrameRaw(raw) == Ok(f) <==> f.header.version == VERSION && raw == RawFrame(f)
  {
    if f.header.version == VERSION && raw == RawFrame(f) {
      DecodeBuiltFrame(f);
    }
    if DecodeFrameRaw(raw) == Ok(f) {
      AcceptedFrameWasBuilt(raw);
    }
  }

  // ── Error detection ──────────────────────────────────────────────────────

  /**
   * A change confined to at most 16 consecutive bits of the covered part of a valid raw frame is
   * always noticed.
   */
  lemma BurstRejected(raw: seq<byte>, garbled: seq<byte>, start: nat)
    requires DecodeFrameRaw(raw).Ok?
    requires |garbled| == |raw|
    requires var crcAt := |raw| - CRC_LEN;
      garbled[crcAt..] == raw[crcAt..] && DifferInBurst(raw[..crcAt], garbled[..crcAt], start)
    ensures DecodeFrameRaw(garbled).Err?
  {
    var crcAt := |raw| - CRC_LEN;
    if DecodeFrameRaw(garbled).Ok? {
      assert garbled[crcAt] == garbled[crcAt..][0] && garbled[crcAt + 1] == garbled[crcAt..][1];
      assert raw[crcAt] == raw[crcAt..][0] && raw[crcAt + 1] == raw[crcAt..][1];
      assert Checksum(garbled[..crcAt]) == Checksum(raw[..crcAt]);
      BurstChangesChecksum(raw[..crcAt], garbled[..crcAt], start);
      assert false;
    }
  }

  /** Every raw frame that is accepted has an even number of one bits. */
  lemma AcceptedFrameIsEven(raw: seq<byte>)
    requires DecodeFrameRaw(raw).Ok?
    ensures !Odd(BitsOf(raw))
  {
    AcceptedFrameWasBuilt(raw);
    CoveredAndChecksumAreEven(Covered(DecodeFrameRaw(raw).value));
  }

  /** An odd number of flipped bits anywhere in a valid raw frame, checksum included, is noticed. */
  lemma OddFlipsRejected(raw: seq<byte>, garbled: seq<byte>)
    requires DecodeFrameRaw(raw).Ok? && |garbled| == |raw|
    requires Flips(BitsOf(raw), BitsOf(garbled)) % 2 == 1
    ensures DecodeFrameRaw(garbled).Err?
  {
    AcceptedFrameIsEven(raw);
    FlipsParity(BitsOf(raw), BitsOf(garbled));
    if DecodeFrameRaw(garbled).Ok? {
      AcceptedFrameIsEven(garbled);
      assert false;
    }
  }

  // ── Frames on a byte stream ──────────────────────────────────────────────

  /** The bytes of a frame between two delimiters. */
  function StuffedFrame(f: Frame): seq<byte>
    requires |f.payload| < 0x1_0000
  {
    Encoded(RawFrame(f))
  }

  function FrameOutcome(f: Frame, room: nat): Result<nat, FrameError> {
    if |f.payload| > MAX_PAYLOAD_LEN then Err(PayloadTooLarge)
    else if room < MaxEncodedLen(|RawFrame(f)|) then Err(Stuffing(CobsError.OutputTooSmall))
    else if room == |StuffedFrame(f)| then Err(FrameError.OutputTooSmall)
    else Ok(|StuffedFrame(f)| + 1)
  }

  /** `out[lo..]` is the slice the caller passes. */
  method EncodeFrame(header: FrameHeader, payload: seq<byte>, out: array<byte>, lo: nat)
    returns (r: Result<nat, FrameError>)
    requires lo <= out.Length
    modifies out
    ensures r == FrameOutcome(Frame(header, payload), out.Length - lo)
    ensures r.Ok? ==> lo + r.value <= out.Length &&
                      out[lo..lo + r.value] == StuffedFrame(Frame(header, payload)) + [DELIMITER]
    ensures out[..lo] == old(out[..lo])
  {
    var raw := new byte[MAX_RAW_FRAME_LEN](_ => 0);
    var rawLen := EncodeFrameRaw(header, payload, raw);
    if rawLen.Err? {
      return Err(rawLen.error);
    }
    var n := Cobs.Encode(raw[..rawLen.value], out, lo);
    if n.Err? {
      return Err(Stuffing(n.error));
    }
    EncodedLength(raw[..rawLen.value]);
    if lo + n.value >= out.Length {
      return Err(FrameError.OutputTooSmall);
    }
    ghost var before, body := out[..lo], out[lo..lo + n.value];
    out[lo + n.value] := DELIMITER;
    assert out[..lo] == before && out[lo..lo + n.value] == body;
    return Ok(n.value + 1);
  }

  /** Unstuffing into a buffer of `room` bytes followed by parsing. */
  function DecodedFrame(encoded: seq<byte>, room: nat): Result<Frame, FrameError> {
    match Decoded(encoded, room)
    case Ok(raw) => DecodeFrameRaw(raw)
    case Err(e) => Err(Stuffing(e))
  }

  method DecodeFrame(encoded: seq<byte>, scratch: array<byte>) returns (r: Result<Frame, FrameError>)
    modifies scratch
    ensures r == DecodedFrame(encoded, scratch.Length)
  {
    var rawLen := Cobs.Decode(encoded, scratch);
    if rawLen.Err? {
      return Err(Stuffing(rawLen.error));
    }
    return DecodeFrameRaw(scratch[..rawLen.value]);
  }

  /** A frame survives the trip through stuffing, and its stuffed form is free of delimiters. */
  lemma FrameSurvives(f: Frame, room: nat)
    requires f.header.version == VERSION && |f.payload| <= MAX_PAYLOAD_LEN && MAX_RAW_FRAME_LEN <= room
    ensures DecodedFrame(StuffedFrame(f), room) == Ok(f)
    ensures ZeroFree(StuffedFrame(f)) && 0 < |StuffedFrame(f)| <= 523
  {
    DecodeInvertsEncode(RawFrame(f), room);
    DecodeBuiltFrame(f);
    EncodedZeroFree(RawFrame(f));
    EncodedLength(RawFrame(f));
  }

  /** A built frame of any size is taken exactly if its bytes fit the buffer it is unstuffed into. */
  lemma DecodedIffRoom(f: Frame, room: nat)
    requires f.header.version == 1 && |f.payload| < 0x1_0000
    ensures DecodedFrame(StuffedFrame(f), room) ==
            if |f.payload| + 8 <= room then Ok(f) else Err(Stuffing(CobsError.OutputTooSmall))
  {
    hide RawFrame, Encoded, Decoded, DecodeFrameRaw;
    DecodeInvertsEncode(RawFrame(f), room);
    DecodeBuiltFrame(f);
  }

  // ── Messages of any size ─────────────────────────────────────────────────

  /** The frames of one message that is too large for a single frame. */
  function Fragments(flags: byte, number: u16, payload: seq<byte>): (frames: seq<Frame>)
    ensures |frames| > 0
    decreases |payload|
  {
    if |payload| <= MAX_PAYLOAD_LEN then
      [Frame(FrameHeader(VERSION, WithLast(WithFragment(flags)), number), payload)]
    else
      [Frame(FrameHeader(VERSION, WithFragment(flags), number), payload[..MAX_PAYLOAD_LEN])]
      + Fragments(flags, number, payload[MAX_PAYLOAD_LEN..])
  }

  function MessageFrames(flags: byte, number: u16, payload: seq<byte>): (frames: seq<Frame>)
    ensures |frames| > 0
  {
    if |payload| <= MAX_PAYLOAD_LEN then [Frame(FrameHeader(VERSION, flags, number), payload)]
    else Fragments(flags, number, payload)
  }

  /** A frame that fits the protocol. */
  predicate Sendable(f: Frame) {
    f.header.version == VERSION && |f.payload| <= MAX_PAYLOAD_LEN
  }

  ghost predicate AllSendable(frames: seq<Frame>) {
    forall i | 0 <= i < |frames| :: Sendable(frames[i])
  }

  lemma {:induction false} FragmentsSendable(flags: byte, number: u16, payload: seq<byte>)
    ensures AllSendable(Fragments(flags, number, payload))
    decreases |payload|
  {
    if |payload| <= MAX_PAYLOAD_LEN {
    } else {
      FragmentsSendable(flags, number, payload[MAX_PAYLOAD_LEN..]);
    }
  }

  lemma MessageFramesSendable(flags: byte, number: u16, payload: seq<byte>)
    ensures AllSendable(MessageFrames(flags, number, payload))
  {
    FragmentsSendable(flags, number, payload);
  }

  /** The bytes a list of frames puts on the stream. */
  function StreamOf(frames: seq<Frame>): seq<byte>
    requires AllSendable(frames)
  {
    if frames == [] then []
    else StuffedFrame(frames[0]) + [DELIMITER] + StreamOf(frames[1..])
  }

  function MessageBytes(flags: byte, number: u16, payload: seq<byte>): seq<byte> {
    MessageFramesSendable(flags, number, payload);
    StreamOf(MessageFrames(flags, number, payload))
  }

  /** What writing the frames one after the other into `room` bytes comes to. */
  function StreamOutcome(frames: seq<Frame>, room: nat): Result<nat, FrameError> {
    if frames == [] then Ok(0) else
    match FrameOutcome(frames[0], room)
    case Err(e) => Err(e)
    case Ok(n) =>
      if n > room then Err(FrameError.OutputTooSmall) else
      match StreamOutcome(frames[1..], room - n)
      case Err(e) => Err(e)
      case Ok(m) => Ok(n + m)
  }

  lemma NextFragment(flags: byte, number: u16, rest: seq<byte>, f: Frame)
    requires |rest| > 0
    requires var n := if MAX_PAYLOAD_LEN < |rest| then MAX_PAYLOAD_LEN else |rest|;
      f == Frame(FrameHeader(VERSION, if n == |rest| then WithLast(WithFragment(flags)) else WithFragment(flags), number), rest[..n])
    ensures var frames := Fragments(flags, number, rest);
      && frames[0] == f
      && frames[1..] == if |rest| <= MAX_PAYLOAD_LEN then [] else Fragments(flags, number, rest[MAX_PAYLOAD_LEN..])
  {
    assert rest[..|rest|] == rest;
  }

  /** One turn of the loop over `payload.chunks(512)`; `left` are the frames not yet written. */
  method EncodeFragment(flags: byte, number: u16, payload: seq<byte>, pos: nat, out: array<byte>, written: nat, ghost left: seq<Frame>)
    returns (r: Result<nat, FrameError>, end: nat)
    requires pos < |payload| && written <= out.Length && left == Fragments(flags, number, payload[pos..])
    modifies out
    ensures pos < end <= |payload|
    ensures left[1..] == if end < |payload| then Fragments(flags, number, payload[end..]) else []
    ensures r == FrameOutcome(left[0], out.Length - written) && Sendable(left[0])
    ensures r.Ok? ==> written + r.value <= out.Length &&
                      out[..written + r.value] == old(out[..written]) + (StuffedFrame(left[0]) + [DELIMITER])
  {
    end := if pos + MAX_PAYLOAD_LEN < |payload| then pos + MAX_PAYLOAD_LEN else |payload|;
    var chunk := payload[pos..end];
    var fragFlags := WithFragment(flags);
    if end == |payload| {
      fragFlags := WithLast(fragFlags);
    }
    ghost var rest := payload[pos..];
    assert chunk == rest[..end - pos] && payload[end..] == rest[end - pos..];
    NextFragment(flags, number, rest, Frame(FrameHeader(VERSION, fragFlags, number), chunk));
    r := EncodeFrame(FrameHeader(VERSION, fragFlags, number), chunk, out, written);
    if r.Ok? {
      assert out[..written + r.value] == out[..written] + out[written..written + r.value];
    }
  }

  /** The frames in `left` are still to be written behind the bytes `sent`. */
  ghost predicate Sent(frames: seq<Frame>, sent: seq<byte>, left: seq<Frame>) {
    AllSendable(frames) && AllSendable(left) && StreamOf(frames) == sent + StreamOf(left)
  }

  function After(n: nat, r: Result<nat, FrameError>): Result<nat, FrameError> {
    if r.Ok? then Ok(n + r.value) else r
  }

  /** With `written` bytes out, the frames in `left` decide how the whole list comes out. */
  ghost predicate Undecided(frames: seq<Frame>, written: nat, left: seq<Frame>, size: nat) {
    written <= size && StreamOutcome(frames, size) == After(written, StreamOutcome(left, size - written))
  }

  lemma NothingSentYet(frames: seq<Frame>, size: nat)
    requires AllSendable(frames)
    ensures Sent(frames, [], frames) && Undecided(frames, 0, frames, size)
  {
    assert [] + StreamOf(frames) == StreamOf(frames);
  }

  lemma AllSent(frames: seq<Frame>, sent: seq<byte>, written: nat, size: nat)
    requires Sent(frames, sent, []) && Undecided(frames, written, [], size)
    ensures AllSendable(frames) && StreamOf(frames) == sent && StreamOutcome(frames, size) == Ok(written)
  {
    assert sent + [] == sent;
  }

  lemma OneFrame(f: Frame, room: nat)
    requires Sendable(f)
    ensures StreamOutcome([f], room) == FrameOutcome(f, room)
    ensures StreamOf([f]) == StuffedFrame(f) + [DELIMITER]
  {
    assert [f][1..] == [];
    EncodedLength(RawFrame(f));
    assert StuffedFrame(f) + [DELIMITER] + [] == StuffedFrame(f) + [DELIMITER];
  }

  lemma {:induction false} NextSent(frames: seq<Frame>, sent: seq<byte>, left: seq<Frame>)
    requires left != [] && Sent(frames, sent, left)
    ensures Sent(frames, sent + (StuffedFrame(left[0]) + [DELIMITER]), left[1..])
  {
    var bytes, later := StuffedFrame(left[0]) + [DELIMITER], StreamOf(left[1..]);
    assert sent + (bytes + later) == (sent + bytes) + later;
  }

  lemma {:induction false} NextOutcome(frames: seq<Frame>, written: nat, left: seq<Frame>, size: nat)
    requires left != [] && Undecided(frames, written, left, size)
    ensures var n := FrameOutcome(left[0], size - written);
      if n.Err? then StreamOutcome(frames, size) == Err(n.error)
      else written + n.value <= size ==> Undecided(frames, written + n.value, left[1..], size)
  {
  }

  method EncodeMessage(flags: byte, number: u16, payload: seq<byte>, out: array<byte>)
    returns (r: Result<nat, FrameError>)
    modifies out
    ensures r == StreamOutcome(MessageFrames(flags, number, payload), out.Length)
    ensures r.Ok? ==> r.value <= out.Length && out[..r.value] == MessageBytes(flags, number, payload)
  {
    hide StuffedFrame, FrameOutcome, StreamOutcome, Sent, Undecided, Fragments, StreamOf;
    MessageFramesSendable(flags, number, payload);
    ghost var frames := MessageFrames(flags, number, payload);
    if |payload| <= MAX_PAYLOAD_LEN {
      r := EncodeFrame(FrameHeader(VERSION, flags, number), payload, out, 0);
      OneFrame(frames[0], out.Length);
      return;
    }
    var written: nat, pos: nat := 0, 0;
    ghost var left, sent: seq<byte> := frames, [];
    NothingSentYet(frames, out.Length);
    assert payload[0..] == payload;
    while pos < |payload|
      invariant pos <= |payload| && written <= out.Length
      invariant left == if pos < |payload| then Fragments(flags, number, payload[pos..]) else []
      invariant sent == out[..written] && Sent(frames, sent, left)
      invariant Undecided(frames, written, left, out.Length)
    {
      NextOutcome(frames, written, left, out.Length);
      NextSent(frames, sent, left);
      var n;
      n, pos := EncodeFragment(flags, number, payload, pos, out, written, left);
      if n.Err? {
        return Err(n.error);
      }
      written := written + n.value;
      sent, left := sent + (StuffedFrame(left[0]) + [DELIMITER]), left[1..];
    }
    AllSent(frames, sent, written, out.Length);
    return Ok(written);
  }

  // ── The buffer that the sender allocates is always large enough ──────────

  function FragmentCount(n: nat): nat { if n <= MAX_PAYLOAD_LEN then 1 else 1 + FragmentCount(n - MAX_PAYLOAD_LEN) }

  lemma {:induction false} FragmentCountIsCeiling(n: nat)
    ensures FragmentCount(n) == if n == 0 then 1 else (n + 511) / 512
  {
    if n <= MAX_PAYLOAD_LEN {
    } else {
      FragmentCountIsCeiling(n - MAX_PAYLOAD_LEN);
    }
  }

  lemma {:induction false} MessageFrameCount(flags: byte, number: u16, payload: seq<byte>)
    ensures |Fragments(flags, number, payload)| == FragmentCount(|payload|)
    decreases |payload|
  {
    if |payload| <= MAX_PAYLOAD_LEN {
    } else {
      MessageFrameCount(flags, number, payload[MAX_PAYLOAD_LEN..]);
    }
  }

  lemma {:induction false} RoomForFrames(frames: seq<Frame>, room: nat)
    requires AllSendable(frames) && 600 * |frames| <= room
    ensures StreamOutcome(frames, room) == Ok(|StreamOf(frames)|)
  {
    hide RawFrame, Encoded;
    if frames == [] {
    } else {
      var f := frames[0];
      EncodedLength(RawFrame(f));
      assert FrameOutcome(f, room) == Ok(|StuffedFrame(f)| + 1);
      RoomForFrames(frames[1..], room - |StuffedFrame(f)| - 1);
    }
  }

  /** `div_ceil(512).max(1) * 600 + 16` */
  function SendBufferLen(n: nat): nat {
    (if n == 0 then 1 else (n + 511) / 512) * 600 + 16
  }

  /** Encoding a message into the buffer that `send_payload` allocates for it never fails. */
  lemma SendBufferSuffices(flags: byte, number: u16, payload: seq<byte>)
    ensures StreamOutcome(MessageFrames(flags, number, payload), SendBufferLen(|payload|))
            == Ok(|MessageBytes(flags, number, payload)|)
  {
    MessageFramesSendable(flags, number, payload);
    FragmentCountIsCeiling(|payload|);
    MessageFrameCount(flags, number, payload);
    RoomForFrames(MessageFrames(flags, number, payload), SendBufferLen(|payload|));
  }

  // ── The bytes and the errors, written out ────────────────────────────────

  lemma ExampleChecksum()
    ensures Checksum([0x01, 0x00, 0x34, 0x12, 0x01, 0x00, 0xAA]) == 0x1918
  {
    hide Checksum, ByteStep;
    EmptyChecksum();
    var header: seq<byte> := [0x01, 0x00, 0x34];
    OneByteMore([], 0x01);
    OneByteMore([0x01], 0x00);
    OneByteMore([0x01, 0x00], 0x34);
    assert [] + [0x01] == [0x01] && [0x01] + [0x00] == [0x01, 0x00] && [0x01, 0x00] + [0x34] == header;
    Stepped(0xFFFF, 0x01, 0x01, 0xFEFF, 0xF1D1);
    Stepped(0xF1D1, 0x00, 0x00, 0xF1D1, 0x2E3E);
    Stepped(0x2E3E, 0x34, 0x34, 0x1A3E, 0x8D7B);
    OneByteMore(header, 0x12);
    OneByteMore(header + [0x12], 0x01);
    OneByteMore(header + [0x12] + [0x01], 0x00);
    OneByteMore(header + [0x12] + [0x01] + [0x00], 0xAA);
    assert header + [0x12] + [0x01] + [0x00] + [0xAA] == [0x01, 0x00, 0x34, 0x12, 0x01, 0x00, 0xAA];
    Stepped(0x8D7B, 0x12, 0x12, 0x9F7B, 0x0956);
    Stepped(0x0956, 0x01, 0x01, 0x0856, 0xD708);
    Stepped(0xD708, 0x00, 0x00, 0xD708, 0xB39A);
    Stepped(0xB39A, 0xAA, 0xAA, 0x199A, 0x1918);
  }

  lemma ExampleRaw()
    ensures RawFrame(Frame(FrameHeader(1, 0, 0x1234), [0xAA])) == [0x01, 0x00, 0x34, 0x12, 0x01, 0x00, 0xAA, 0x18, 0x19]
  {
    hide Checksum;
    var f := Frame(FrameHeader(1, 0, 0x1234), [0xAA]);
    assert Covered(f) == [0x01, 0x00, 0x34, 0x12, 0x01, 0x00, 0xAA];
    ExampleChecksum();
    assert WordLo(0x1918) == 0x18 && WordHi(0x1918) == 0x19;
  }

  /**
   * One message on the wire, byte for byte: version, flags, number and length with their low bytes first,
   * payload, checksum with its low byte first, all of it stuffed, and the delimiter.
   */
  lemma ExampleMessage()
    ensures MessageBytes(0, 0x1234, [0xAA]) == [2, 0x01, 4, 0x34, 0x12, 0x01, 4, 0xAA, 0x18, 0x19, 0]
  {
    hide RawFrame, Encoded;
    var f := Frame(FrameHeader(1, 0, 0x1234), [0xAA]);
    ExampleRaw();
    var raw := RawFrame(f);
    var tail: seq<byte> := [0x34, 0x12, 0x01, 0x00, 0xAA, 0x18, 0x19];
    EncodedBlockByBlock([0x01], tail);
    EncodedBlockByBlock([0x34, 0x12, 0x01], [0xAA, 0x18, 0x19]);
    EncodedBlockByBlock([0xAA, 0x18, 0x19], []);
    assert raw == [0x01] + ([0] + tail) && tail == [0x34, 0x12, 0x01] + ([0] + [0xAA, 0x18, 0x19]);
    assert [f][1..] == [] && StreamOf([f]) == StuffedFrame(f) + [DELIMITER] + StreamOf([]);
  }

  /** What is wrong with raw bytes, in the order of the checks: their number, version, length and checksum. */
  lemma RawFrameErrors(raw: seq<byte>)
    ensures var r := DecodeFrameRaw(raw);
      if |raw| < 8 then r == Err(TooShort)
      else if raw[0] != 1 then r == Err(UnsupportedVersion(raw[0]))
      else
        var lo: nat, hi: nat := raw[4], raw[5];
        if |raw| != lo + 0x100 * hi + 8 then r == Err(LengthMismatch)
        else if FromWordBytes(raw[|raw| - 2], raw[|raw| - 1]) != Checksum(raw[..|raw| - 2]) then r == Err(CrcMismatch)
        else r.Ok? && r.value.header.version == 1 && r.value.header.flags == raw[1] && r.value.payload == raw[6..|raw| - 2]
  {
    hide Checksum, FromWordBytes;
  }

  /** Writing a frame: too large a payload, too little room for the worst stuffing, or for the delimiter. */
  lemma FrameFailsIff(f: Frame, room: nat)
    ensures var n := |f.payload| + 8;
      FrameOutcome(f, room) ==
      if |f.payload| > 512 then Err(PayloadTooLarge)
      else if room < n + n / 254 + 1 then Err(Stuffing(CobsError.OutputTooSmall))
      else if room == |StuffedFrame(f)| then Err(FrameError.OutputTooSmall)
      else Ok(|StuffedFrame(f)| + 1)
  {
  }

  /** Frame `i` of a stream has this much room left of `room`. */
  ghost function RoomFor(frames: seq<Frame>, i: nat, room: nat): int
    requires AllSendable(frames) && i <= |frames|
  {
    room - |StreamOf(frames[..i])|
  }

  ghost predicate FitsAt(frames: seq<Frame>, i: nat, room: nat)
    requires AllSendable(frames) && i < |frames|
  {
    RoomFor(frames, i, room) >= 0 && FrameOutcome(frames[i], RoomFor(frames, i, room)).Ok?
  }

  lemma FitsLater(frames: seq<Frame>, rest: seq<Frame>, i: nat, room: nat, left: nat)
    requires frames != [] && AllSendable(frames) && rest == frames[1..] && i < |rest|
    requires room == left + |StuffedFrame(frames[0])| + 1
    ensures AllSendable(rest) && RoomFor(frames, i + 1, room) == RoomFor(rest, i, left)
    ensures FitsAt(frames, i + 1, room) <==> FitsAt(rest, i, left)
  {
    hide StuffedFrame, FrameOutcome;
    assert frames[..i + 1][0] == frames[0] && frames[..i + 1][1..] == rest[..i];
  }

  lemma FittingFrame(f: Frame, room: nat)
    requires Sendable(f)
    ensures FrameOutcome(f, room).Ok? ==> FrameOutcome(f, room).value == |StuffedFrame(f)| + 1 <= room
  {
    EncodedLength(RawFrame(f));
  }

  /** Frame `i` is the first that does not fit, with error `e`. */
  ghost predicate FirstUnfit(frames: seq<Frame>, i: nat, room: nat, e: FrameError)
    requires AllSendable(frames)
  {
    && i < |frames| && RoomFor(frames, i, room) >= 0 && FrameOutcome(frames[i], RoomFor(frames, i, room)) == Err(e)
    && forall j | 0 <= j < i :: FitsAt(frames, j, room)
  }

  lemma UnfitLater(frames: seq<Frame>, rest: seq<Frame>, i: nat, room: nat, left: nat, e: FrameError)
    requires frames != [] && AllSendable(frames) && rest == frames[1..] && AllSendable(rest)
    requires room == left + |StuffedFrame(frames[0])| + 1 && FitsAt(frames, 0, room) && FirstUnfit(rest, i, left, e)
    ensures FirstUnfit(frames, i + 1, room, e)
  {
    hide StuffedFrame, FrameOutcome, RoomFor, FitsAt;
    FitsLater(frames, rest, i, room, left);
    forall j | 0 < j <= i ensures FitsAt(frames, j, room) {
      FitsLater(frames, rest, j - 1, room, left);
    }
  }

  lemma AllFitLater(frames: seq<Frame>, rest: seq<Frame>, room: nat, left: nat)
    requires frames != [] && AllSendable(frames) && rest == frames[1..] && AllSendable(rest)
    requires room == left + |StuffedFrame(frames[0])| + 1 && FitsAt(frames, 0, room)
    requires forall i | 0 <= i < |rest| :: FitsAt(rest, i, left)
    ensures forall i | 0 <= i < |frames| :: FitsAt(frames, i, room)
  {
    hide StuffedFrame, FrameOutcome, RoomFor, FitsAt;
    forall j | 0 < j < |frames| ensures FitsAt(frames, j, room) {
      FitsLater(frames, rest, j - 1, room, left);
    }
  }

  lemma FirstFits(frames: seq<Frame>, room: nat)
    requires frames != [] && AllSendable(frames)
    ensures RoomFor(frames, 0, room) == room
  {
    assert frames[..0] == [];
  }

  /**
   * Writing a message succeeds exactly if each of its frames fits behind the ones in front of it, and
   * otherwise gives the error of the first that does not.
   */
  lemma {:induction false} MessageFailsIff(frames: seq<Frame>, room: nat)
    requires AllSendable(frames)
    ensures var r := StreamOutcome(frames, room);
      && (r.Ok? ==> r.value == |StreamOf(frames)| && forall i | 0 <= i < |frames| :: FitsAt(frames, i, room))
      && (r.Err? ==> exists i: nat :: FirstUnfit(frames, i, room, r.error))
    decreases |frames|
  {
    hide StuffedFrame, FrameOutcome, RoomFor;
    if frames == [] {
    } else {
      FirstFits(frames, room);
      FittingFrame(frames[0], room);
      var r := FrameOutcome(frames[0], room);
      if r.Err? {
        assert FirstUnfit(frames, 0, room, r.error);
      } else {
        var rest, left := frames[1..], room - r.value;
        MessageFailsIff(rest, left);
        var later := StreamOutcome(rest, left);
        if later.Err? {
          var i: nat :| FirstUnfit(rest, i, left, later.error);
          UnfitLater(frames, rest, i, room, left, later.error);
        } else {
          AllFitLater(frames, rest, room, left);
        }
      }
    }
  }

  lemma LastFragment(number: u16, payload: seq<byte>)
    requires |payload| <= 512
    ensures Fragments(0, number, payload) == [Frame(FrameHeader(1, 6, number), payload)]
  {
    assert WithFragment(0) == 2 && WithLast(2) == 6;
  }

  lemma FirstFragment(number: u16, payload: seq<byte>)
    requires |payload| > 512
    ensures Fragments(0, number, payload) ==
            [Frame(FrameHeader(1, 2, number), payload[..512])] + Fragments(0, number, payload[512..])
  {
    assert WithFragment(0) == 2;
  }

  /**
   * The frames of a message sent without flags: one with the whole payload, or pieces of 512 bytes with the
   * fragment flag, the last of them with what is left and the last flag too.
   */
  lemma {:induction false} FragmentsAre(number: u16, payload: seq<byte>, i: nat)
    requires |payload| > 0 && 512 * i < |payload|
    ensures var frames := Fragments(0, number, payload);
      && i < |frames| && frames[i].header == FrameHeader(1, if 512 * i + 512 >= |payload| then 6 else 2, number)
      && frames[i].payload == payload[512 * i..if 512 * i + 512 >= |payload| then |payload| else 512 * i + 512]
      && (512 * i + 512 >= |payload| <==> i == |frames| - 1)
    decreases |payload|
  {
    hide Fragments;
    if |payload| <= 512 {
      LastFragment(number, payload);
      assert payload[0..|payload|] == payload;
    } else {
      FirstFragment(number, payload);
      if i > 0 {
        var tail := payload[512..];
        FragmentsAre(number, tail, i - 1);
        assert Fragments(0, number, payload)[i] == Fragments(0, number, tail)[i - 1];
      }
    }
  }
}
