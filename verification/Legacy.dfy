/**
 * Framing of the legacy TunerStudio protocol on the device (engine-core/src/comms/mod.rs): CRC-32
 * and `length, payload, checksum`, all big-endian.
 */
module Legacy {
  import opened Bytes

  const FRAMING_OVERHEAD := 6
  const CRC32_POLY: bv32 := 0xEDB8_8320

  // ── CRC-32 of IEEE 802.3 ─────────────────────────────────────────────────

  function Shift32(c: bv32): bv32 {
    if c & 1 == 1 then (c >> 1) ^ CRC32_POLY else c >> 1
  }

  function Shifts32(c: bv32, n: nat): bv32 {
    if n == 0 then c else Shift32(Shifts32(c, n - 1))
  }

  function ByteStep32(c: bv32, b: byte): bv32 {
    Shifts32(c ^ ((b as bv8) as bv32), 8)
  }

  function Register32(data: seq<byte>): bv32
    decreases |data|
  {
    if data == [] then 0xFFFF_FFFF
    else ByteStep32(Register32(data[..|data| - 1]), data[|data| - 1])
  }

  function Crc32(data: seq<byte>): bv32 { !Register32(data) }

  /** The source selects the polynomial with a mask instead of a branch. */
  method MaskedShift(c: bv32) returns (r: bv32)
    ensures r == Shift32(c)
  {
    var mask: bv32 := 0 - (c & 1);
    if c & 1 == 1 {
      assert mask == 0xFFFF_FFFF;
    } else {
      assert c & 1 == 0 && mask == 0;
    }
    r := (c >> 1) ^ (CRC32_POLY & mask);
  }

  method ShiftByte(c: bv32, b: byte) returns (crc: bv32)
    ensures crc == ByteStep32(c, b)
  {
    crc := c ^ ((b as bv8) as bv32);
    ghost var start := crc;
    for k := 0 to 8
      invariant crc == Shifts32(start, k)
    {
      crc := MaskedShift(crc);
    }
  }

  method ComputeCrc32(data: seq<byte>) returns (r: bv32)
    ensures r == Crc32(data)
  {
    var crc: bv32 := 0xFFFF_FFFF;
    for i := 0 to |data|
      invariant crc == Register32(data[..i])
    {
      assert data[..i + 1][..i] == data[..i];
      crc := ShiftByte(crc, data[i]);
    }
    assert data[..|data|] == data;
    r := !crc;
  }

  lemma Stepped32(c: bv32, b: byte, x: bv32, d: bv32)
    requires c ^ ((b as bv8) as bv32) == x && Shifts32(x, 8) == d
    ensures ByteStep32(c, b) == d
  {
  }

  lemma OneByteMore32(data: seq<byte>, b: byte)
    ensures Register32(data + [b]) == ByteStep32(Register32(data), b)
  {
    assert (data + [b])[..|data|] == data;
  }

  lemma EmptyRegister()
    ensures Register32([]) == 0xFFFF_FFFF
  {
  }

  // The digits from 1 to 9, three at a time.
  lemma FirstDigits()
    ensures Register32([0x31, 0x32, 0x33]) == 0x77B7_9C2D
  {
    hide Register32, ByteStep32;
    EmptyRegister();
    OneByteMore32([], 0x31);
    OneByteMore32([0x31], 0x32);
    OneByteMore32([0x31, 0x32], 0x33);
    assert [] + [0x31] == [0x31] && [0x31] + [0x32] == [0x31, 0x32] && [0x31, 0x32] + [0x33] == [0x31, 0x32, 0x33];
    Stepped32(0xFFFF_FFFF, 0x31, 0xFFFF_FFCE, 0x7C23_1048);
    Stepped32(0x7C23_1048, 0x32, 0x7C23_107A, 0xB0AC_BB32);
    Stepped32(0xB0AC_BB32, 0x33, 0xB0AC_BB01, 0x77B7_9C2D);
  }

  lemma MiddleDigits()
    ensures Register32([0x31, 0x32, 0x33, 0x34, 0x35, 0x36]) == 0xF68D_2C9E
  {
    hide Register32, ByteStep32;
    FirstDigits();
    var digits := [0x31, 0x32, 0x33];
    OneByteMore32(digits, 0x34);
    OneByteMore32(digits + [0x34], 0x35);
    OneByteMore32(digits + [0x34] + [0x35], 0x36);
    assert digits + [0x34] + [0x35] + [0x36] == [0x31, 0x32, 0x33, 0x34, 0x35, 0x36];
    Stepped32(0x77B7_9C2D, 0x34, 0x77B7_9C19, 0x641C_1F5C);
    Stepped32(0x641C_1F5C, 0x35, 0x641C_1F69, 0x340A_C5E3);
    Stepped32(0x340A_C5E3, 0x36, 0x340A_C5D5, 0xF68D_2C9E);
  }

  /** The check value of CRC-32: the checksum of the text "123456789". */
  lemma CheckValue()
    ensures Crc32([0x31, 0x32, 0x33, 0x34, 0x35, 0x36, 0x37, 0x38, 0x39]) == 0xCBF4_3926
  {
    hide Register32, ByteStep32;
    MiddleDigits();
    var digits := [0x31, 0x32, 0x33, 0x34, 0x35, 0x36];
    OneByteMore32(digits, 0x37);
    OneByteMore32(digits + [0x37], 0x38);
    OneByteMore32(digits + [0x37] + [0x38], 0x39);
    assert digits + [0x37] + [0x38] + [0x39] == [0x31, 0x32, 0x33, 0x34, 0x35, 0x36, 0x37, 0x38, 0x39];
    Stepped32(0xF68D_2C9E, 0x37, 0xF68D_2CA9, 0xAFFC_9660);
    Stepped32(0xAFFC_9660, 0x38, 0xAFFC_9658, 0x651F_2550);
    Stepped32(0x651F_2550, 0x39, 0x651F_2569, 0x340B_C6D9);
  }

  // ── The checksum as four bytes, most significant first ───────────────────

  function Be32(v: bv32): (bytes: seq<byte>)
    ensures |bytes| == 4
  {
    [((v >> 24) as bv8) as int, (((v >> 16) & 0xFF) as bv8) as int,
     (((v >> 8) & 0xFF) as bv8) as int, ((v & 0xFF) as bv8) as int]
  }

  function FromBe32(b0: byte, b1: byte, b2: byte, b3: byte): bv32 {
    (((b0 as bv8) as bv32) << 24) | (((b1 as bv8) as bv32) << 16) | (((b2 as bv8) as bv32) << 8) | ((b3 as bv8) as bv32)
  }

  lemma QuartersJoined(v: bv32)
    ensures ((((v >> 24) as bv8) as bv32) << 24) | (((((v >> 16) & 0xFF) as bv8) as bv32) << 16)
          | (((((v >> 8) & 0xFF) as bv8) as bv32) << 8) | (((v & 0xFF) as bv8) as bv32) == v
  {
  }

  lemma Be32RoundTrip(v: bv32)
    ensures var s := Be32(v); FromBe32(s[0], s[1], s[2], s[3]) == v
  {
    BitsToByte((v >> 24) as bv8);
    BitsToByte(((v >> 16) & 0xFF) as bv8);
    BitsToByte(((v >> 8) & 0xFF) as bv8);
    BitsToByte((v & 0xFF) as bv8);
    QuartersJoined(v);
  }

  lemma JoinedQuarters(a: bv8, b: bv8, c: bv8, d: bv8)
    ensures var v := ((a as bv32) << 24) | ((b as bv32) << 16) | ((c as bv32) << 8) | (d as bv32);
      && (v >> 24) as bv8 == a && ((v >> 16) & 0xFF) as bv8 == b && ((v >> 8) & 0xFF) as bv8 == c && (v & 0xFF) as bv8 == d
  {
  }

  lemma Be32OfBytes(b0: byte, b1: byte, b2: byte, b3: byte)
    ensures Be32(FromBe32(b0, b1, b2, b3)) == [b0, b1, b2, b3]
  {
    JoinedQuarters(b0 as bv8, b1 as bv8, b2 as bv8, b3 as bv8);
    ByteToBits(b0);
    ByteToBits(b1);
    ByteToBits(b2);
    ByteToBits(b3);
  }

  // ── Framing ──────────────────────────────────────────────────────────────

  function LegacyFrame(payload: seq<byte>): (bytes: seq<byte>)
    requires |payload| < 0x1_0000
    ensures |bytes| == |payload| + FRAMING_OVERHEAD
  {
    [Hi(|payload|), Lo(|payload|)] + payload + Be32(Crc32(payload))
  }

  datatype LegacyError = Incomplete | CrcMismatch

  /** Payload and number of bytes consumed. */
  function DecodeLegacy(buf: seq<byte>): Result<(seq<byte>, nat), LegacyError> {
    if |buf| < FRAMING_OVERHEAD then Err(Incomplete) else
    var len := From16(buf[1], buf[0]);
    if |buf| < len + FRAMING_OVERHEAD then Err(Incomplete) else
    var payload := buf[2..2 + len];
    if Crc32(payload) != FromBe32(buf[2 + len], buf[3 + len], buf[4 + len], buf[5 + len]) then Err(CrcMismatch)
    else Ok((payload, len + FRAMING_OVERHEAD))
  }

  method EncodeLegacy(payload: seq<byte>, out: array<byte>) returns (r: Option<nat>)
    modifies out
    ensures r == if out.Length < |payload| + FRAMING_OVERHEAD || |payload| > 0xFFFF then None
                 else Some(|payload| + FRAMING_OVERHEAD)
    ensures r.Some? ==> out[..r.value] == LegacyFrame(payload)
    ensures r.None? ==> out[..] == old(out[..])
  {
    var total := |payload| + FRAMING_OVERHEAD;
    if out.Length < total || |payload| > 0xFFFF {
      return None;
    }
    var len := |payload|;
    out[0] := len / 0x100;
    out[1] := len % 0x100;
    forall i | 0 <= i < len {
      out[2 + i] := payload[i];
    }
    var crc := ComputeCrc32(payload);
    var sum := Be32(crc);
    assert out[..2 + len] == [Hi(len), Lo(len)] + payload;
    ghost var head := out[..2 + len];
    forall i | 0 <= i < 4 {
      out[2 + len + i] := sum[i];
    }
    assert out[..2 + len] == head && out[2 + len..total] == sum;
    return Some(total);
  }

  /** The parts of a buffer that begins with a length, that many bytes and a checksum. */
  lemma BufferParts(payload: seq<byte>, sum: seq<byte>, tail: seq<byte>)
    requires |payload| < 0x1_0000 && |sum| == 4
    ensures var buf, n := [Hi(|payload|), Lo(|payload|)] + payload + sum + tail, |payload|;
      && |buf| >= n + FRAMING_OVERHEAD && From16(buf[1], buf[0]) == n && buf[2..2 + n] == payload
      && buf[2 + n] == sum[0] && buf[3 + n] == sum[1] && buf[4 + n] == sum[2] && buf[5 + n] == sum[3]
  {
    Split16(|payload|, 0, 0);
  }

  /** Such a buffer is decided by its checksum alone. */
  lemma DecodeParts(payload: seq<byte>, sum: seq<byte>, tail: seq<byte>)
    requires |payload| < 0x1_0000 && |sum| == 4
    ensures DecodeLegacy([Hi(|payload|), Lo(|payload|)] + payload + sum + tail) ==
            if Crc32(payload) != FromBe32(sum[0], sum[1], sum[2], sum[3]) then Err(CrcMismatch)
            else Ok((payload, |payload| + FRAMING_OVERHEAD))
  {
    hide Crc32, FromBe32, Hi, Lo, From16;
    BufferParts(payload, sum, tail);
  }

  lemma LegacyFrameLength(payload: seq<byte>, tail: seq<byte>)
    requires |payload| < 0x1_0000
    ensures var buf := LegacyFrame(payload) + tail;
      |buf| >= |payload| + FRAMING_OVERHEAD && From16(buf[1], buf[0]) == |payload|
  {
    hide Crc32, Be32, From16;
    BufferParts(payload, Be32(Crc32(payload)), tail);
  }

  /** A complete frame at the front of a buffer is taken off exactly. */
  lemma DecodeLegacyFrame(payload: seq<byte>, tail: seq<byte>)
    requires |payload| < 0x1_0000
    ensures DecodeLegacy(LegacyFrame(payload) + tail) == Ok((payload, |payload| + FRAMING_OVERHEAD))
  {
    hide DecodeLegacy, Crc32, Be32, FromBe32;
    Be32RoundTrip(Crc32(payload));
    DecodeParts(payload, Be32(Crc32(payload)), tail);
  }

  /** An incomplete frame is never mistaken for anything else. */
  lemma DecodeLegacyPrefix(payload: seq<byte>, n: nat)
    requires |payload| < 0x1_0000 && n < |payload| + FRAMING_OVERHEAD
    ensures DecodeLegacy(LegacyFrame(payload)[..n]) == Err(Incomplete)
  {
    hide Crc32, Be32, FromBe32, LegacyFrame, From16;
    var frame := LegacyFrame(payload);
    if n >= FRAMING_OVERHEAD {
      LegacyFrameLength(payload, []);
      assert frame[..n][0] == (frame + [])[0] && frame[..n][1] == (frame + [])[1];
    }
  }

  // ── A frame byte for byte ────────────────────────────────────────────────

  lemma ChecksumOfHello()
    ensures Crc32([0x53]) == 0x2060_EFC3
  {
    hide ByteStep32, Register32;
    EmptyRegister();
    OneByteMore32([], 0x53);
    assert [] + [0x53] == [0x53];
    Stepped32(0xFFFF_FFFF, 0x53, 0xFFFF_FFAC, 0xDF9F_103C);
  }

  lemma HelloChecksumBytes()
    ensures Be32(0x2060_EFC3) == [0x20, 0x60, 0xEF, 0xC3]
  {
  }

  /** The request for the signature: length and checksum have their high bytes first. */
  lemma ExampleFrame()
    ensures LegacyFrame([0x53]) == [0x00, 0x01, 0x53, 0x20, 0x60, 0xEF, 0xC3]
  {
    hide Crc32, Be32;
    ChecksumOfHello();
    HelloChecksumBytes();
  }
}
