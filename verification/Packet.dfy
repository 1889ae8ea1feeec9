/**
 * Framing of the legacy protocol on the host (protocol/src/packet.rs, protocol/src/io.rs). Same
 * bytes as on the device, other limits: no empty payload, none over 32768 bytes.
 */
module Packet {
  import opened Bytes
  import opened Legacy

  const MAX_PAYLOAD_LEN := 32768

  datatype ProtocolError = PayloadTooLarge | BufferTooSmall(needed: nat, have: nat) | BadCrc | EmptyPayload

  method EncodePacket(payload: seq<byte>, buf: array<byte>) returns (r: Result<nat, ProtocolError>)
    modifies buf
    ensures r.Ok? <==> 0 < |payload| <= 32768 && |payload| + 6 <= buf.Length
    ensures r.Ok? ==> r.value == |payload| + 6 <= buf.Length && buf[..r.value] == LegacyFrame(payload)
    ensures r.Err? ==> buf[..] == old(buf[..])
    ensures payload == [] ==> r == Err(EmptyPayload)
    ensures |payload| > 32768 ==> r == Err(PayloadTooLarge)
    ensures 0 < |payload| <= 32768 && r.Err? ==> r == Err(BufferTooSmall(|payload| + 6, buf.Length))
  {
    if |payload| == 0 {
      return Err(EmptyPayload);
    }
    if |payload| > MAX_PAYLOAD_LEN {
      return Err(PayloadTooLarge);
    }
    var total := |payload| + FRAMING_OVERHEAD;
    if buf.Length < total {
      return Err(BufferTooSmall(total, buf.Length));
    }
    var n := EncodeLegacy(payload, buf);
    return Ok(n.value);
  }

  method EncodePacketVec(payload: seq<byte>) returns (r: Result<seq<byte>, ProtocolError>)
    ensures r == if payload == [] then Err(EmptyPayload)
                 else if |payload| > 32768 then Err(PayloadTooLarge)
                 else Ok(LegacyFrame(payload))
  {
    hide LegacyFrame;
    var buf := new byte[|payload| + FRAMING_OVERHEAD];
    var n := EncodePacket(payload, buf);
    match n
    case Err(e) => return Err(e);
    case Ok(total) =>
      assert buf[..total] == buf[..];
      return Ok(buf[..]);
  }

  function DecodePacket(buf: seq<byte>): Result<seq<byte>, ProtocolError> {
    if |buf| < FRAMING_OVERHEAD then Err(BufferTooSmall(FRAMING_OVERHEAD, |buf|)) else
    var len := From16(buf[1], buf[0]);
    if len == 0 then Err(EmptyPayload)
    else if |buf| < len + FRAMING_OVERHEAD then Err(BufferTooSmall(len + FRAMING_OVERHEAD, |buf|))
    else
      var payload := buf[2..2 + len];
      if Crc32(payload) != FromBe32(buf[2 + len], buf[3 + len], buf[4 + len], buf[5 + len]) then Err(BadCrc)
      else Ok(payload)
  }

  /** `recv_packet` on a stream that starts with `bytes`: the length is checked before the rest is read. */
  function ReceivePacket(bytes: seq<byte>): Result<seq<byte>, ProtocolError> {
    if |bytes| < 2 then Err(BufferTooSmall(2, |bytes|)) else
    var len := From16(bytes[1], bytes[0]);
    if len == 0 then Err(EmptyPayload)
    else if len > MAX_PAYLOAD_LEN then Err(PayloadTooLarge)
    else if |bytes| < len + FRAMING_OVERHEAD then Err(BufferTooSmall(len + FRAMING_OVERHEAD, |bytes|))
    else DecodePacket(bytes[..len + FRAMING_OVERHEAD])
  }

  /** The host accepts exactly what the device accepts, except empty payloads. */
  lemma SameFramesAsDevice(buf: seq<byte>)
    ensures DecodePacket(buf).Ok? <==> DecodeLegacy(buf).Ok? && DecodeLegacy(buf).value.0 != []
    ensures DecodePacket(buf).Ok? ==> DecodePacket(buf).value == DecodeLegacy(buf).value.0
  {
    hide Crc32, FromBe32;
  }

  lemma WholeFrame(payload: seq<byte>)
    requires |payload| < 0x1_0000
    ensures payload != [] ==> DecodePacket(LegacyFrame(payload)) == Ok(payload)
  {
    hide LegacyFrame, DecodePacket, DecodeLegacy;
    DecodeLegacyFrame(payload, []);
    assert LegacyFrame(payload) + [] == LegacyFrame(payload);
    SameFramesAsDevice(LegacyFrame(payload));
  }

  /** What either side frames, the host takes off exactly, within its limits. */
  lemma ReceiveFrame(payload: seq<byte>, tail: seq<byte>)
    requires |payload| < 0x1_0000
    ensures ReceivePacket(LegacyFrame(payload) + tail) ==
            if payload == [] then Err(EmptyPayload)
            else if |payload| > 32768 then Err(PayloadTooLarge)
            else Ok(payload)
  {
    hide LegacyFrame, DecodePacket, DecodeLegacy, Be32, Crc32;
    var frame, n := LegacyFrame(payload), |payload|;
    LegacyFrameLength(payload, tail);
    WholeFrame(payload);
    FrontOf(frame, tail);
  }

  /** An answer that is cut short is refused with the number of bytes it needs and has. */
  lemma ReceivePrefix(payload: seq<byte>, n: nat)
    requires 0 < |payload| <= 32768 && n < |payload| + 6
    ensures ReceivePacket(LegacyFrame(payload)[..n]) == Err(BufferTooSmall(if n < 2 then 2 else |payload| + 6, n))
  {
    hide LegacyFrame, DecodePacket;
    var frame := LegacyFrame(payload);
    LegacyFrameLength(payload, []);
    if n >= 2 {
      assert frame[..n][0] == (frame + [])[0] && frame[..n][1] == (frame + [])[1];
    }
  }

  /** An answer with any other checksum is refused, whatever follows. */
  lemma ReceiveCorrupted(payload: seq<byte>, crc: seq<byte>, tail: seq<byte>)
    requires 0 < |payload| <= 32768 && |crc| == 4 && crc != Be32(Crc32(payload))
    ensures var length: seq<byte> := [|payload| / 0x100, |payload| % 0x100];
      ReceivePacket(length + payload + crc + tail) == Err(BadCrc)
  {
    hide Crc32, Be32, FromBe32;
    var n := |payload|;
    var frame: seq<byte> := [n / 0x100, n % 0x100] + payload + crc;
    Split16(n, 0, 0);
    FrontOf(frame, tail);
    assert frame[2..2 + n] == payload;
    assert crc == [frame[n + 2], frame[n + 3], frame[n + 4], frame[n + 5]];
    Be32OfBytes(crc[0], crc[1], crc[2], crc[3]);
  }
}
